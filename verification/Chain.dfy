/**
 The tree of block headers and the active chain.  Each block has a link to its parent
 and one that skips back further; lookups by height use both, and the active chain
 keeps its blocks in a vector indexed by height.
 */
module Chain {
  import opened Arithmetic

  /** The lowest 1 bit becomes 0. */
  function InvertLowestOne(n: nat): (m: nat)
    ensures m == 0 || m < n
  {
    if n == 0 then 0 else BitAnd(n, n - 1)
  }

  lemma {:induction false} AndSelf(q: nat)
    ensures BitAnd(q, q) == q
  {
    if q > 0 { AndSelf(q / 2); }
  }

  /** Every positive number is an odd one times a power of two; the odd one loses its last bit. */
  lemma {:induction false} LowestOneCleared(q: nat, k: nat)
    ensures InvertLowestOne((2 * q + 1) * Pow2(k)) == 2 * q * Pow2(k)
    decreases k
  {
    hide Pow2, InvertLowestOne;
    if k == 0 {
      Pow2Next(0);
      InvertOdd(q);
    } else {
      LowestOneCleared(q, k - 1);
      Pow2Next(k - 1);
      Double(2 * q + 1, Pow2(k - 1));
      Double(2 * q, Pow2(k - 1));
      InvertEven((2 * q + 1) * Pow2(k - 1));
    }
  }

  lemma InvertOdd(q: nat)
    ensures InvertLowestOne(2 * q + 1) == 2 * q
  {
    AndSelf(q);
    assert (2 * q + 1) / 2 == q && (2 * q) / 2 == q && (2 * q) % 2 == 0;
  }

  lemma InvertEven(m: nat)
    ensures InvertLowestOne(2 * m) == 2 * InvertLowestOne(m)
  {
    assert (2 * m) / 2 == m && (2 * m) % 2 == 0;
    if m > 0 { assert (2 * m - 1) / 2 == m - 1; }
  }

  function GetSkipHeight(height: int): (h: nat)
    ensures height > 0 ==> h < height
  {
    if height < 2 then 0
    else if height % 2 == 1 then InvertLowestOne(InvertLowestOne(height - 1)) + 1
    else InvertLowestOne(height)
  }

  /** From an even height, the lowest 1 bit is dropped. */
  lemma SkipFromEven(q: nat, k: nat)
    requires k >= 1
    ensures GetSkipHeight((2 * q + 1) * Pow2(k)) == 2 * q * Pow2(k)
  {
    hide Pow2, InvertLowestOne;
    LowestOneCleared(q, k);
    EvenMultiple(2 * q + 1, k);
  }

  lemma EvenMultiple(m: nat, k: nat)
    requires k >= 1 && m >= 1
    ensures m * Pow2(k) >= 2 && m * Pow2(k) % 2 == 0
  {
    hide Pow2;
    Pow2Next(k - 1);
    Double(m, Pow2(k - 1));
    MulLe(1, m, Pow2(k - 1));
  }

  /** From an odd height, the lowest two 1 bits but the last one are dropped. */
  lemma SkipFromOdd(p: nat, l: nat, k: nat)
    requires 1 <= k < l
    ensures GetSkipHeight((2 * p + 1) * Pow2(l) + Pow2(k) + 1) == 2 * p * Pow2(l) + 1
    ensures GetSkipHeight(Pow2(k) + 1) == 1
  {
    hide Pow2, InvertLowestOne, GetSkipHeight;
    var q := TwoBits(p, l, k);
    LowestOneCleared(q, k);
    LowestOneCleared(p, l);
    LowestOneCleared(0, k);
    EvenMultiple(2 * q + 1, k);
    EvenMultiple(1, k);
    SkipAfter((2 * q + 1) * Pow2(k));
    SkipAfter(Pow2(k));
  }

  lemma SkipAfter(n: nat)
    requires n >= 2 && n % 2 == 0
    ensures GetSkipHeight(n + 1) == InvertLowestOne(InvertLowestOne(n)) + 1
    ensures InvertLowestOne(0) == 0
  {
    hide InvertLowestOne;
    assert InvertLowestOne(0) == 0 by { InvertEven(0); }
  }

  lemma TwoBits(p: nat, l: nat, k: nat) returns (q: nat)
    requires k < l
    ensures (2 * q + 1) * Pow2(k) == (2 * p + 1) * Pow2(l) + Pow2(k) && 2 * q * Pow2(k) == (2 * p + 1) * Pow2(l)
  {
    hide Pow2;
    MulNat(2 * p + 1, Pow2(l - k - 1));
    q := (2 * p + 1) * Pow2(l - k - 1);
    Pow2Next(l - k - 1);
    Double(2 * p + 1, Pow2(l - k - 1));
    assert 2 * q == (2 * p + 1) * Pow2(l - k);
    Pow2Add(l - k, k);
    MulAssoc(2 * p + 1, Pow2(l - k), Pow2(k));
    MulAdd(2 * q, 1, Pow2(k));
  }

  class BlockIndex {
    const nHeight: nat
    const pprev: BlockIndex?
    var pskip: BlockIndex?

    /** Heights count the blocks below. */
    ghost predicate Rooted()
      decreases nHeight
    {
      if pprev == null then nHeight == 0 else nHeight == pprev.nHeight + 1 && pprev.Rooted()
    }

    /** The block at a height, following parent links. */
    ghost function Ancestor(h: nat): (b: BlockIndex)
      requires Rooted() && h <= nHeight
      ensures b.Rooted() && b.nHeight == h
      decreases nHeight
    {
      if h == nHeight then this else pprev.Ancestor(h)
    }

    lemma {:induction false} AncestorOfAncestor(h: nat, g: nat)
      requires Rooted() && g <= h <= nHeight
      ensures Ancestor(h).Ancestor(g) == Ancestor(g)
      decreases nHeight
    {
      if h < nHeight { pprev.AncestorOfAncestor(h, g); }
    }

    ghost function Family(): set<BlockIndex>
      requires Rooted()
      decreases nHeight
    {
      {this} + if pprev == null then {} else pprev.Family()
    }

    lemma {:induction false} AncestorInFamily(h: nat)
      requires Rooted() && h <= nHeight
      ensures Ancestor(h) in Family() && Ancestor(h).Family() <= Family()
      decreases nHeight
    {
      if h < nHeight { pprev.AncestorInFamily(h); }
    }

    /** A skip link, once set, leads to the ancestor at the height computed for it. */
    ghost predicate SkipOk()
      requires Rooted()
      reads this
    {
      pskip == null || pskip == Ancestor(GetSkipHeight(nHeight))
    }

    ghost predicate SkipsOk()
      requires Rooted()
      reads Family()
    {
      forall b :: b in Family() ==> b.Rooted() && b.SkipOk()
    }

    lemma {:induction false} FamilyRooted(b: BlockIndex)
      requires Rooted() && b in Family()
      ensures b.Rooted() && b.nHeight <= nHeight && b == Ancestor(b.nHeight)
      decreases nHeight
    {
      if b != this { pprev.FamilyRooted(b); }
    }

    constructor (prev: BlockIndex?)
      requires prev != null ==> prev.Rooted()
      ensures Rooted() && pprev == prev && pskip == null
    {
      pprev := prev;
      nHeight := if prev == null then 0 else prev.nHeight + 1;
      pskip := null;
    }

    /** Lookup by skip links and parent links. */
    method GetAncestor(height: int) returns (b: BlockIndex?)
      requires Rooted() && SkipsOk()
      ensures b == if 0 <= height <= nHeight then Ancestor(height) else null
    {
      if height > nHeight || height < 0 { return null; }
      var walk, heightWalk := this, nHeight;
      while heightWalk > height
        invariant height <= heightWalk <= nHeight && SkipsOk() && walk == Ancestor(heightWalk)
        decreases heightWalk
      {
        var heightSkip := GetSkipHeight(heightWalk);
        var heightSkipPrev := GetSkipHeight(heightWalk - 1);
        AncestorInFamily(heightWalk);
        if walk.pskip != null &&
           (heightSkip == height ||
            (heightSkip > height && !(heightSkipPrev < heightSkip - 2 && heightSkipPrev >= height))) {
          AncestorOfAncestor(heightWalk, heightSkip);
          walk := walk.pskip;
          heightWalk := heightSkip;
        } else {
          assert walk.pprev != null;
          AncestorOfAncestor(heightWalk, heightWalk - 1);
          walk := walk.pprev;
          heightWalk := heightWalk - 1;
        }
      }
      return walk;
    }

    method BuildSkip()
      requires Rooted() && SkipOk() && (pprev != null ==> pprev.SkipsOk())
      modifies this`pskip
      ensures SkipsOk() && (pprev != null ==> pskip == Ancestor(GetSkipHeight(nHeight)))
    {
      if pprev != null {
        pskip := pprev.GetAncestor(GetSkipHeight(nHeight));
      }
      forall b | b in Family() ensures b.Rooted() && b.SkipOk() {
        FamilyRooted(b);
        if b != this {
          assert b in pprev.Family() && old(b.SkipOk());
        }
      }
    }
  }

  // ----- the active chain

  /** Entry i is the block at height i, below every later entry. */
  ghost predicate ChainOk(v: seq<BlockIndex?>) {
    forall i, j :: 0 <= i <= j < |v| ==>
      v[i] != null && v[j] != null && v[j].Rooted() && v[j].nHeight == j && v[i] == v[j].Ancestor(i)
  }

  /** Both blocks have this one below them, or are it. */
  ghost predicate Below(b: BlockIndex, p: BlockIndex)
    requires p.Rooted()
  {
    b.nHeight <= p.nHeight && b == p.Ancestor(b.nHeight)
  }

  function CeilLog2(n: nat): (c: nat)
    ensures n <= Pow2(c) && (c > 0 ==> Pow2(c - 1) < n)
  {
    if n <= 1 then 0 else
    var c := CeilLog2((n + 1) / 2);
    c + 1
  }

  /** The chain and the branch of a block have no block in common above height h. */
  ghost predicate MeetUpTo(v: seq<BlockIndex?>, p: BlockIndex, h: int)
    requires p.Rooted()
  {
    forall k: nat :: k <= p.nHeight && k < |v| && v[k] == p.Ancestor(k) ==> k <= h
  }

  lemma MeetStart(v: seq<BlockIndex?>, p: BlockIndex)
    requires p.Rooted()
    ensures MeetUpTo(v, p, if p.nHeight > |v| - 1 then |v| - 1 else p.nHeight)
  {
  }

  lemma MeetLower(v: seq<BlockIndex?>, p: BlockIndex, h: nat)
    requires p.Rooted() && h <= p.nHeight && h < |v| && v[h] != p.Ancestor(h) && MeetUpTo(v, p, h)
    ensures MeetUpTo(v, p, h - 1)
  {
  }

  class CChain {
    var vChain: seq<BlockIndex?>

    ghost predicate Valid()
      reads this
    {
      ChainOk(vChain)
    }

    constructor ()
      ensures Valid() && vChain == []
    {
      vChain := [];
    }

    function Tip(): BlockIndex?
      reads this
    {
      if |vChain| > 0 then vChain[|vChain| - 1] else null
    }

    function Get(nHeight: int): BlockIndex?
      reads this
    {
      if nHeight < 0 || nHeight >= |vChain| then null else vChain[nHeight]
    }

    predicate Contains(pindex: BlockIndex)
      reads this
    {
      Get(pindex.nHeight) == pindex
    }

    function Height(): int
      reads this
    {
      |vChain| - 1
    }

    function Next(pindex: BlockIndex): BlockIndex?
      reads this
    {
      if Contains(pindex) then Get(pindex.nHeight + 1) else null
    }

    /** The successor of a block of the chain is its child there; only the tip has none. */
    lemma NextIsChild(pindex: BlockIndex)
      requires Valid() && Contains(pindex)
      ensures Next(pindex) == null <==> pindex == Tip()
      ensures Next(pindex) != null ==> Next(pindex).pprev == pindex && Contains(Next(pindex))
    {
      var j := pindex.nHeight;
      assert vChain[j].nHeight == j;
      if j + 1 < |vChain| {
        assert vChain[j] == vChain[j + 1].Ancestor(j);
        Parents(vChain[j + 1], j + 1);
      }
    }

    /** The walk down stops at the first block that is already in place. */
    method SetTip(tip: BlockIndex?)
      requires Valid() && (tip != null ==> tip.Rooted())
      modifies this
      ensures Valid() && Tip() == tip
      ensures tip != null ==>
                |vChain| == tip.nHeight + 1 && forall i :: 0 <= i < |vChain| ==> vChain[i] == tip.Ancestor(i)
    {
      if tip == null {
        vChain := [];
        return;
      }
      ghost var before := vChain;
      var n := tip.nHeight + 1;
      vChain := if n <= |vChain| then vChain[..n] else vChain + seq(n - |vChain|, i => null);
      var pindex: BlockIndex? := tip;
      ghost var h := tip.nHeight;
      while pindex != null && vChain[pindex.nHeight] != pindex
        invariant -1 <= h <= tip.nHeight && |vChain| == n
        invariant if h == -1 then pindex == null else pindex == tip.Ancestor(h)
        invariant forall i :: h < i < n ==> vChain[i] == tip.Ancestor(i)
        invariant forall i :: 0 <= i <= h ==> vChain[i] == if i < |before| then before[i] else null
        decreases h
      {
        vChain := vChain[pindex.nHeight := pindex];
        if h > 0 { tip.AncestorOfAncestor(h, h - 1); }
        pindex := pindex.pprev;
        h := h - 1;
      }
      if h >= 0 { SameBelow(before, tip, h); }
      AncestorsChain(vChain, tip);
    }

    /** A chain that has an ancestor of the block has the ones below it. */
    static lemma SameBelow(chain: seq<BlockIndex?>, tip: BlockIndex, h: nat)
      requires ChainOk(chain) && tip.Rooted() && h <= tip.nHeight && h < |chain| && chain[h] == tip.Ancestor(h)
      ensures forall i :: 0 <= i <= h ==> chain[i] == tip.Ancestor(i)
    {
      forall i | 0 <= i <= h ensures chain[i] == tip.Ancestor(i) {
        tip.AncestorOfAncestor(h, i);
        assert chain[i] == chain[h].Ancestor(i);
      }
    }

    static lemma AncestorsChain(chain: seq<BlockIndex?>, tip: BlockIndex)
      requires tip.Rooted() && |chain| == tip.nHeight + 1
      requires forall i :: 0 <= i < |chain| ==> chain[i] == tip.Ancestor(i)
      ensures ChainOk(chain) && chain[|chain| - 1] == tip
    {
      forall i, j | 0 <= i <= j < |chain| ensures chain[i] == chain[j].Ancestor(i) { tip.AncestorOfAncestor(j, i); }
    }

    /** The highest block of the chain that is below, or is, the given one. */
    method FindFork(from: BlockIndex?) returns (fork: BlockIndex?)
      requires Valid() && (from != null ==> from.Rooted() && from.SkipsOk())
      ensures fork != null ==> from != null && Contains(fork) && Below(fork, from)
      ensures from != null ==> MeetUpTo(vChain, from, if fork == null then -1 else fork.nHeight)
    {
      hide MeetUpTo;
      if from == null { return null; }
      fork := from;
      ghost var h := if from.nHeight > Height() then Height() else from.nHeight;
      MeetStart(vChain, from);
      if from.nHeight > Height() {
        fork := from.GetAncestor(Height());
      }
      while fork != null && !Contains(fork)
        invariant -1 <= h <= from.nHeight && h < |vChain|
        invariant if h == -1 then fork == null else fork == from.Ancestor(h)
        invariant MeetUpTo(vChain, from, h)
        decreases h
      {
        MeetLower(vChain, from, h);
        Parents(from, h);
        fork := fork.pprev;
        h := h - 1;
      }
    }

    /** From the block down to genesis, first one by one and then in steps that double. */
    method GetLocator(given: BlockIndex?) returns (have: seq<BlockIndex>)
      requires Valid() && (given != null ==> given.Rooted())
      requires var p := if given == null then Tip() else given; p != null ==> p.SkipsOk()
      ensures var p := if given == null then Tip() else given;
        if p == null then have == [] else
        && have != [] && have[0] == p && have[|have| - 1].nHeight == 0
        && (forall i :: 0 <= i < |have| ==> Below(have[i], p))
        && (forall i, j :: 0 <= i < j < |have| ==> have[i].nHeight > have[j].nHeight)
        && Spaced(Heights(have))
        && (p.nHeight >= 1 ==> |have| <= 12 + CeilLog2(p.nHeight))
    {
      hide Sampled, SampledTotal, BlockIndex.SkipsOk, Spaced, StepsDown, Heights;
      have := [];
      var nStep := 1;
      var pindex := given;
      if pindex == null { pindex := Tip(); }
      ghost var top := pindex;
      if top != null { SampledNone(top); SpacedOne(top.nHeight); }
      while pindex != null
        invariant if top == null then pindex == null && have == [] else pindex != null && Below(pindex, top)
        invariant top != null ==> top.SkipsOk() && Sampled(top, have, pindex)
        invariant pindex != null ==> Spaced(Heights(have) + [pindex.nHeight])
        invariant nStep == if |have| <= 10 then 1 else Pow2(|have| - 10)
        decreases if pindex == null then 0 else pindex.nHeight + 1
      {
        SampledLast(top, have, pindex);
        ghost var current := pindex;
        HeightsMore(have, pindex);
        have := have + [pindex];
        if pindex.nHeight == 0 {
          SampledDone(top, have);
          break;
        }
        var nHeight := if pindex.nHeight - nStep > 0 then pindex.nHeight - nStep else 0;
        top.AncestorOfAncestor(pindex.nHeight, nHeight);
        if Contains(pindex) {
          pindex := Get(nHeight);
        } else {
          SkipsBelow(top, pindex);
          assert allocated(top.Family());
          pindex := pindex.GetAncestor(nHeight);
        }
        SampledMore(top, have[..|have| - 1], current, pindex, nStep);
        StepTaken(current.nHeight, pindex.nHeight, |have| - 1, nStep);
        SpacedMore(have[..|have| - 1], current, pindex.nHeight);
        if |have| > 10 { nStep := nStep * 2; }
      }
    }
  }

  /** Entries i and i+1 are one block apart for i up to ten, and 2^(i-10) blocks from then on; but none is
      below genesis. */
  ghost predicate Spaced(heights: seq<int>) {
    forall i: nat :: i + 1 < |heights| ==> StepsDown(heights[i], heights[i + 1], i)
  }

  ghost predicate StepsDown(height: int, next: int, i: nat) {
    var step := if i <= 10 then 1 else Pow2(i - 10);
    next == if height > step then height - step else 0
  }

  lemma StepTaken(height: int, next: int, i: nat, step: nat)
    requires step == (if i <= 10 then 1 else Pow2(i - 10)) && next == if height - step > 0 then height - step else 0
    ensures StepsDown(height, next, i)
  {
  }

  ghost function Heights(have: seq<BlockIndex>): (h: seq<int>)
    ensures |h| == |have|
  {
    seq(|have|, i requires 0 <= i < |have| => have[i].nHeight)
  }

  lemma HeightsMore(have: seq<BlockIndex>, b: BlockIndex)
    ensures Heights(have + [b]) == Heights(have) + [b.nHeight]
  {
  }

  lemma SpacedOne(height: int)
    ensures Spaced(Heights([]) + [height])
  {
  }

  lemma SpacedMore(have: seq<BlockIndex>, b: BlockIndex, next: int)
    requires Spaced(Heights(have) + [b.nHeight]) && StepsDown(b.nHeight, next, |have|)
    ensures Spaced(Heights(have + [b]) + [next])
  {
    hide StepsDown;
    HeightsMore(have, b);
    var heights := Heights(have) + [b.nHeight];
    var all := heights + [next];
    forall i: nat | i + 1 < |all| ensures StepsDown(all[i], all[i + 1], i) {
      if i + 1 < |heights| { assert all[i] == heights[i] && all[i + 1] == heights[i + 1]; }
    }
  }

  /** The blocks listed so far, and the one to be listed next. */
  ghost predicate Sampled(top: BlockIndex, have: seq<BlockIndex>, next: BlockIndex)
    requires top.Rooted()
  {
    && (if have == [] then next == top else have[0] == top)
    && (forall i :: 0 <= i < |have| ==> Below(have[i], top) && have[i].nHeight > next.nHeight)
    && (forall i, j :: 0 <= i < j < |have| ==> have[i].nHeight > have[j].nHeight)
    && (next.nHeight > 0 ==> next.nHeight == top.nHeight - if |have| <= 10 then |have| else 9 + Pow2(|have| - 10))
    && (|have| >= 12 ==> Pow2(|have| - 11) < top.nHeight)
  }

  ghost predicate SampledTotal(top: BlockIndex, have: seq<BlockIndex>)
    requires top.Rooted()
  {
    && have != [] && have[0] == top
    && (forall i :: 0 <= i < |have| ==> Below(have[i], top))
    && (forall i, j :: 0 <= i < j < |have| ==> have[i].nHeight > have[j].nHeight)
    && (top.nHeight >= 1 ==> |have| <= 12 + CeilLog2(top.nHeight))
  }

  lemma SampledNone(top: BlockIndex)
    requires top.Rooted()
    ensures Sampled(top, [], top)
  {
  }

  lemma SampledLast(top: BlockIndex, have: seq<BlockIndex>, next: BlockIndex)
    requires top.Rooted() && Sampled(top, have, next) && Below(next, top)
    ensures SampledTotal(top, have + [next])
  {
    if top.nHeight >= 1 && |have| >= 12 && |have| - 11 > CeilLog2(top.nHeight) {
      Pow2Le(CeilLog2(top.nHeight), |have| - 11);
    }
  }

  lemma SampledDone(top: BlockIndex, have: seq<BlockIndex>)
    requires top.Rooted() && SampledTotal(top, have)
    ensures have != [] && have[0] == top
    ensures forall i :: 0 <= i < |have| ==> Below(have[i], top)
    ensures forall i, j :: 0 <= i < j < |have| ==> have[i].nHeight > have[j].nHeight
    ensures top.nHeight >= 1 ==> |have| <= 12 + CeilLog2(top.nHeight)
  {
  }

  lemma SampledMore(top: BlockIndex, have: seq<BlockIndex>, current: BlockIndex, next: BlockIndex, nStep: nat)
    requires top.Rooted() && Sampled(top, have, current) && Below(current, top) && current.nHeight > 0
    requires nStep == if |have| <= 10 then 1 else Pow2(|have| - 10)
    requires next.nHeight == if current.nHeight - nStep > 0 then current.nHeight - nStep else 0
    ensures Sampled(top, have + [current], next)
  {
    assert |have| >= 10 ==> Pow2(|have| - 9) == 2 * Pow2(|have| - 10);
  }

  lemma SkipsBelow(top: BlockIndex, b: BlockIndex)
    requires top.Rooted() && top.SkipsOk() && Below(b, top)
    ensures b.Rooted() && b.SkipsOk()
  {
    top.AncestorInFamily(b.nHeight);
  }

  /** The blocks have none in common above height h. */
  ghost predicate CommonUpTo(a: BlockIndex, b: BlockIndex, h: int)
    requires a.Rooted() && b.Rooted()
  {
    forall k: nat :: k <= a.nHeight && k <= b.nHeight && a.Ancestor(k) == b.Ancestor(k) ==> k <= h
  }

  lemma CommonLower(a: BlockIndex, b: BlockIndex, h: nat)
    requires a.Rooted() && b.Rooted() && h <= a.nHeight && h <= b.nHeight && CommonUpTo(a, b, h)
    requires a.Ancestor(h) != b.Ancestor(h)
    ensures CommonUpTo(a, b, h - 1)
  {
  }

  lemma Parents(a: BlockIndex, h: nat)
    requires a.Rooted() && h <= a.nHeight
    ensures a.Ancestor(h).pprev == if h == 0 then null else a.Ancestor(h - 1)
  {
    if h > 0 { a.AncestorOfAncestor(h, h - 1); }
  }

  /** The highest block below both, or null when they have no block in common. */
  method LastCommonAncestor(a: BlockIndex, b: BlockIndex) returns (common: BlockIndex?)
    requires a.Rooted() && b.Rooted() && a.SkipsOk() && b.SkipsOk()
    ensures common != null ==> Below(common, a) && Below(common, b)
    ensures common != null ==> CommonUpTo(a, b, common.nHeight)
    ensures common == null ==> CommonUpTo(a, b, -1)
    ensures common == null <==> a.Ancestor(0) != b.Ancestor(0)
  {
    hide CommonUpTo;
    var pa: BlockIndex?, pb: BlockIndex? := a, b;
    if pa.nHeight > pb.nHeight {
      pa := pa.GetAncestor(pb.nHeight);
    } else if pb.nHeight > pa.nHeight {
      pb := pb.GetAncestor(pa.nHeight);
    }
    ghost var h := pa.nHeight;
    CommonStart(a, b);
    while pa != pb && pa != null && pb != null
      invariant -1 <= h <= a.nHeight && h <= b.nHeight
      invariant if h == -1 then pa == null && pb == null else pa == a.Ancestor(h) && pb == b.Ancestor(h)
      invariant CommonUpTo(a, b, h)
      decreases h
    {
      CommonLower(a, b, h);
      Parents(a, h);
      Parents(b, h);
      pa, pb := pa.pprev, pb.pprev;
      h := h - 1;
    }
    assert pa == pb;
    GenesisCommon(a, b, h);
    return pa;
  }

  lemma CommonStart(a: BlockIndex, b: BlockIndex)
    requires a.Rooted() && b.Rooted()
    ensures CommonUpTo(a, b, if a.nHeight < b.nHeight then a.nHeight else b.nHeight)
  {
  }

  lemma GenesisCommon(a: BlockIndex, b: BlockIndex, h: int)
    requires a.Rooted() && b.Rooted() && -1 <= h <= a.nHeight && h <= b.nHeight && CommonUpTo(a, b, h)
    ensures h == -1 ==> a.Ancestor(0) != b.Ancestor(0)
    ensures h >= 0 && a.Ancestor(h) == b.Ancestor(h) ==> a.Ancestor(0) == b.Ancestor(0)
  {
    assert Below(a.Ancestor(0), a) && Below(b.Ancestor(0), b);
    if h >= 0 {
      a.AncestorOfAncestor(h, 0);
      b.AncestorOfAncestor(h, 0);
    }
  }
}
