/**
 Proofs that some transactions are in a block: a depth-first walk of the Merkle tree
 that goes below a node only when a matched transaction is there, storing one bit
 for each node it visits and one hash for each node it does not go below.
 */
module PartialMerkle {
  import opened Arithmetic
  import opened ByteBits

  const MAX_TRANSACTIONS: nat := 4_000_000 / (4 * 60)

  type Hash = nat
  type PairHash = (Hash, Hash) -> Hash

  // ----- the shape of the tree

  function Width(n: nat, h: nat): nat { (n + Pow2(h) - 1) / Pow2(h) }

  /** A node exists when its first transaction does. */
  lemma InWidth(n: nat, h: nat, pos: nat)
    ensures pos < Width(n, h) <==> pos * Pow2(h) < n
  {
    var p, w := Pow2(h), Width(n, h);
    var r := (n + p - 1) % p;
    assert n + p - 1 == w * p + r && 0 <= r < p by { DivMod(n + p - 1, p); }
    if pos < w { MulStep(pos, w, p); } else if w < pos { MulStep(w, pos, p); }
  }

  function Lo(h: nat, pos: nat): nat { pos * Pow2(h) }

  function Hi(n: nat, h: nat, pos: nat): nat { if (pos + 1) * Pow2(h) < n then (pos + 1) * Pow2(h) else n }

  /** The children of a node cover its transactions. */
  lemma Split(n: nat, h: nat, pos: nat)
    requires h > 0 && pos < Width(n, h)
    ensures 2 * pos < Width(n, h - 1)
    ensures Lo(h, pos) == Lo(h - 1, 2 * pos) < Hi(n, h - 1, 2 * pos) <= n
    ensures if 2 * pos + 1 < Width(n, h - 1)
            then Hi(n, h - 1, 2 * pos) == Lo(h - 1, 2 * pos + 1) < Hi(n, h - 1, 2 * pos + 1) == Hi(n, h, pos)
            else Hi(n, h - 1, 2 * pos) == Hi(n, h, pos)
  {
    hide Width;
    var p := Pow2(h - 1);
    InWidth(n, h, pos);
    InWidth(n, h - 1, 2 * pos);
    InWidth(n, h - 1, 2 * pos + 1);
    assert pos * (2 * p) == 2 * pos * p && (2 * pos + 1) * p == 2 * pos * p + p;
    assert (pos + 1) * (2 * p) == 2 * pos * p + 2 * p && (2 * pos + 2) * p == 2 * pos * p + 2 * p;
  }

  function CalcHash(f: PairHash, txids: seq<Hash>, h: nat, pos: nat): Hash
    requires pos < Width(|txids|, h)
  {
    if h == 0 then txids[pos] else
    Split(|txids|, h, pos);
    var left := CalcHash(f, txids, h - 1, 2 * pos);
    var right := if 2 * pos + 1 < Width(|txids|, h - 1) then CalcHash(f, txids, h - 1, 2 * pos + 1) else left;
    f(left, right)
  }

  ghost predicate Injective(f: PairHash) {
    forall a, b, c, d :: f(a, b) == f(c, d) ==> a == c && b == d
  }

  ghost predicate Distinct(txids: seq<Hash>) {
    forall i, j :: 0 <= i < j < |txids| ==> txids[i] != txids[j]
  }

  /** Nodes of one height have different hashes. */
  lemma {:induction false} HashesDiffer(f: PairHash, txids: seq<Hash>, h: nat, p: nat, q: nat)
    requires Injective(f) && Distinct(txids) && p < Width(|txids|, h) && q < Width(|txids|, h) && p != q
    ensures CalcHash(f, txids, h, p) != CalcHash(f, txids, h, q)
    decreases h
  {
    if h > 0 {
      Split(|txids|, h, p);
      Split(|txids|, h, q);
      HashesDiffer(f, txids, h - 1, 2 * p, 2 * q);
    }
  }

  // ----- matched transactions

  ghost predicate Matched(chosen: seq<bool>, lo: nat, hi: nat)
    requires hi <= |chosen|
  {
    exists p :: lo <= p < hi && chosen[p]
  }

  /** The matched transactions of a range, with their positions. */
  function Picked(txids: seq<Hash>, chosen: seq<bool>, lo: nat, hi: nat): seq<(nat, Hash)>
    requires lo <= hi <= |txids| == |chosen|
    decreases hi - lo
  {
    if lo == hi then [] else
    (if chosen[lo] then [(lo, txids[lo])] else []) + Picked(txids, chosen, lo + 1, hi)
  }

  lemma {:induction false} PickedSplit(txids: seq<Hash>, chosen: seq<bool>, lo: nat, mid: nat, hi: nat)
    requires lo <= mid <= hi <= |txids| == |chosen|
    ensures Picked(txids, chosen, lo, hi) == Picked(txids, chosen, lo, mid) + Picked(txids, chosen, mid, hi)
    decreases mid - lo
  {
    if lo < mid { PickedSplit(txids, chosen, lo + 1, mid, hi); }
  }

  lemma {:induction false} PickedNone(txids: seq<Hash>, chosen: seq<bool>, lo: nat, hi: nat)
    requires lo <= hi <= |txids| == |chosen|
    ensures Picked(txids, chosen, lo, hi) == [] <==> !Matched(chosen, lo, hi)
    decreases hi - lo
  {
    if lo < hi {
      PickedNone(txids, chosen, lo + 1, hi);
      if Matched(chosen, lo, hi) && !chosen[lo] {
        var p :| lo <= p < hi && chosen[p];
        assert lo + 1 <= p;
      }
    }
  }

  // ----- building

  datatype Proof = Proof(bits: seq<bool>, hashes: seq<Hash>)

  ghost predicate NodeMatched(chosen: seq<bool>, h: nat, pos: nat) {
    Matched(chosen, Lo(h, pos), Hi(|chosen|, h, pos))
  }

  ghost function Build(f: PairHash, txids: seq<Hash>, chosen: seq<bool>, h: nat, pos: nat): Proof
    requires |txids| == |chosen| && pos < Width(|txids|, h)
  {
    var below := NodeMatched(chosen, h, pos);
    if h == 0 || !below then Proof([below], [CalcHash(f, txids, h, pos)]) else
    Split(|txids|, h, pos);
    var left := Build(f, txids, chosen, h - 1, 2 * pos);
    if 2 * pos + 1 < Width(|txids|, h - 1) then
      var right := Build(f, txids, chosen, h - 1, 2 * pos + 1);
      Proof([true] + left.bits + right.bits, left.hashes + right.hashes)
    else Proof([true] + left.bits, left.hashes)
  }

  /** Matched transactions below a node, in order. */
  function Below(txids: seq<Hash>, chosen: seq<bool>, h: nat, pos: nat): seq<(nat, Hash)>
    requires |txids| == |chosen| && pos < Width(|txids|, h)
  {
    InWidth(|txids|, h, pos);
    MulStep(pos, pos + 1, Pow2(h));
    Picked(txids, chosen, Lo(h, pos), Hi(|txids|, h, pos))
  }

  lemma BelowSplit(txids: seq<Hash>, chosen: seq<bool>, h: nat, pos: nat)
    requires |txids| == |chosen| && h > 0 && pos < Width(|txids|, h)
    ensures 2 * pos < Width(|txids|, h - 1)
    ensures Below(txids, chosen, h, pos) == Below(txids, chosen, h - 1, 2 * pos)
      + (if 2 * pos + 1 < Width(|txids|, h - 1) then Below(txids, chosen, h - 1, 2 * pos + 1) else [])
  {
    var n := |txids|;
    Split(n, h, pos);
    PickedSplit(txids, chosen, Lo(h, pos), Hi(n, h - 1, 2 * pos), Hi(n, h, pos));
  }

  lemma BelowNone(txids: seq<Hash>, chosen: seq<bool>, h: nat, pos: nat)
    requires |txids| == |chosen| && pos < Width(|txids|, h)
    ensures Below(txids, chosen, h, pos) == [] <==> !NodeMatched(chosen, h, pos)
  {
    InWidth(|txids|, h, pos);
    MulStep(pos, pos + 1, Pow2(h));
    PickedNone(txids, chosen, Lo(h, pos), Hi(|txids|, h, pos));
  }

  lemma BelowLeaf(txids: seq<Hash>, chosen: seq<bool>, pos: nat)
    requires |txids| == |chosen| && pos < |txids|
    ensures Width(|txids|, 0) == |txids|
    ensures NodeMatched(chosen, 0, pos) == chosen[pos]
    ensures Below(txids, chosen, 0, pos) == if chosen[pos] then [(pos, txids[pos])] else []
  {
    assert Picked(txids, chosen, pos + 1, pos + 1) == [];
  }

  /** No more hashes than transactions, at least as many bits as hashes,
      and at most one hash plus one for each level above each matched transaction. */
  lemma {:induction false} BuildBounds(f: PairHash, txids: seq<Hash>, chosen: seq<bool>, h: nat, pos: nat)
    requires |txids| == |chosen| && pos < Width(|txids|, h)
    ensures var p := Build(f, txids, chosen, h, pos);
      && 1 <= |p.hashes| <= Hi(|txids|, h, pos) - Lo(h, pos) && |p.hashes| <= |p.bits|
      && |p.hashes| <= 1 + |Below(txids, chosen, h, pos)| * h
    decreases h
  {
    hide Below, Lo, Hi, CalcHash, NodeMatched;
    var n, m := |txids|, |Below(txids, chosen, h, pos)|;
    RangeProper(n, h, pos);
    if h > 0 && NodeMatched(chosen, h, pos) {
      BelowNone(txids, chosen, h, pos);
      BelowSplit(txids, chosen, h, pos);
      Split(n, h, pos);
      BuildBounds(f, txids, chosen, h - 1, 2 * pos);
      var l := |Below(txids, chosen, h - 1, 2 * pos)|;
      assert m * h == m * (h - 1) + m;
      if 2 * pos + 1 < Width(n, h - 1) {
        BuildBounds(f, txids, chosen, h - 1, 2 * pos + 1);
        MulAdd(l, m - l, h - 1);
      }
    }
  }

  lemma RangeProper(n: nat, h: nat, pos: nat)
    requires pos < Width(n, h)
    ensures Lo(h, pos) < Hi(n, h, pos) <= n
  {
    InWidth(n, h, pos);
    MulStep(pos, pos + 1, Pow2(h));
  }

  // ----- the number of bits

  /** Nodes with one child that the walk goes below. */
  ghost function Lone(chosen: seq<bool>, h: nat, pos: nat): nat
    requires pos < Width(|chosen|, h)
  {
    if h == 0 || !NodeMatched(chosen, h, pos) then 0 else
    Split(|chosen|, h, pos);
    var left := Lone(chosen, h - 1, 2 * pos);
    if 2 * pos + 1 < Width(|chosen|, h - 1) then left + Lone(chosen, h - 1, 2 * pos + 1) else left + 1
  }

  /** Bits and hashes: two bits for each hash but one, and one for each node with a single child. */
  lemma {:induction false} BitCount(f: PairHash, txids: seq<Hash>, chosen: seq<bool>, h: nat, pos: nat)
    requires |txids| == |chosen| && pos < Width(|txids|, h)
    ensures var p := Build(f, txids, chosen, h, pos); |p.bits| == 2 * |p.hashes| - 1 + Lone(chosen, h, pos)
    decreases h
  {
    hide CalcHash, NodeMatched, Width;
    if h > 0 && NodeMatched(chosen, h, pos) {
      Split(|txids|, h, pos);
      BitCount(f, txids, chosen, h - 1, 2 * pos);
      if 2 * pos + 1 < Width(|txids|, h - 1) { BitCount(f, txids, chosen, h - 1, 2 * pos + 1); }
    }
  }

  /** No matched transaction lies below a node with a single child: such a node is the last of its row. */
  ghost predicate NoLoneMatch(chosen: seq<bool>, h: nat) {
    forall g :: 1 <= g <= h && Width(|chosen|, g - 1) % 2 == 1 ==> !NodeMatched(chosen, g, Width(|chosen|, g) - 1)
  }

  lemma FirstChild(n: nat, h: nat, pos: nat)
    requires h > 0
    ensures pos < Width(n, h) <==> 2 * pos < Width(n, h - 1)
  {
    InWidth(n, h, pos);
    InWidth(n, h - 1, 2 * pos);
    assert pos * (2 * Pow2(h - 1)) == 2 * pos * Pow2(h - 1);
  }

  /** Rows halve, rounding up. */
  lemma WidthHalf(n: nat, h: nat)
    requires h > 0
    ensures Width(n, h) == (Width(n, h - 1) + 1) / 2
  {
    hide Width;
    var w := Width(n, h);
    FirstChild(n, h, w);
    if w > 0 { FirstChild(n, h, w - 1); }
  }

  lemma {:induction false} LoneOnlyLast(chosen: seq<bool>, h: nat, pos: nat)
    requires pos < Width(|chosen|, h)
    ensures pos + 1 < Width(|chosen|, h) ==> Lone(chosen, h, pos) == 0
    ensures pos + 1 == Width(|chosen|, h) && NoLoneMatch(chosen, h) ==> Lone(chosen, h, pos) == 0
    decreases h
  {
    hide Width;
    var n := |chosen|;
    if h > 0 && NodeMatched(chosen, h, pos) {
      Split(n, h, pos);
      WidthHalf(n, h);
      LoneOnlyLast(chosen, h - 1, 2 * pos);
      if 2 * pos + 1 < Width(n, h - 1) { LoneOnlyLast(chosen, h - 1, 2 * pos + 1); }
    }
  }

  /** A match below a node is a match below the last node of a higher row, if that holds the first. */
  lemma {:induction false} LoneMatchCounts(chosen: seq<bool>, h: nat, g: nat)
    requires 1 <= g <= h && |chosen| > 0 && Width(|chosen|, g - 1) % 2 == 1
    requires NodeMatched(chosen, g, Width(|chosen|, g) - 1)
    ensures Width(|chosen|, h) > 0 && NodeMatched(chosen, h, Width(|chosen|, h) - 1)
    ensures Lone(chosen, h, Width(|chosen|, h) - 1) > 0
    decreases h
  {
    hide Width, NodeMatched;
    var n := |chosen|;
    InWidth(n, h, 0);
    WidthHalf(n, h);
    var pos := Width(n, h) - 1;
    Split(n, h, pos);
    if g < h {
      LoneMatchCounts(chosen, h - 1, g);
      MatchedAbove(chosen, h, pos);
    }
  }

  lemma WidthPositive(n: nat, h: nat)
    requires n > 0
    ensures Width(n, h) > 0
  {
    InWidth(n, h, 0);
  }

  lemma MatchedAbove(chosen: seq<bool>, h: nat, pos: nat)
    requires h > 0 && pos < Width(|chosen|, h)
    ensures 2 * pos < Width(|chosen|, h - 1)
    ensures NodeMatched(chosen, h, pos) <==>
      (NodeMatched(chosen, h - 1, 2 * pos)
       || (2 * pos + 1 < Width(|chosen|, h - 1) && NodeMatched(chosen, h - 1, 2 * pos + 1)))
  {
    hide Width, Lo, Hi;
    Split(|chosen|, h, pos);
  }

  /** The bits stay within two for each hash, less one, exactly when no match lies below a single child. */
  lemma BitBound(f: PairHash, txids: seq<Hash>, chosen: seq<bool>, h: nat)
    requires |txids| == |chosen| > 0 && Width(|txids|, h) == 1
    ensures var p := Build(f, txids, chosen, h, 0); |p.bits| <= 2 * |p.hashes| - 1 <==> NoLoneMatch(chosen, h)
  {
    hide NodeMatched, Build, Width, Lone;
    BitCount(f, txids, chosen, h, 0);
    LoneOnlyLast(chosen, h, 0);
    forall g ensures g >= 0 ==> Width(|chosen|, g) > 0 { if g >= 0 { WidthPositive(|chosen|, g); } }
    if !NoLoneMatch(chosen, h) {
      var g :| 1 <= g <= h && Width(|chosen|, g - 1) % 2 == 1 && NodeMatched(chosen, g, Width(|chosen|, g) - 1);
      LoneMatchCounts(chosen, h, g);
    }
  }

  lemma ThreeWide()
    ensures Width(3, 0) == 3 && Width(3, 1) == 2 && Width(3, 2) == 1
    ensures Lo(2, 0) == 0 && Hi(3, 2, 0) == 3 && Lo(1, 0) == 0 && Hi(3, 1, 0) == 2
    ensures Lo(1, 1) == 2 && Hi(3, 1, 1) == 3 && Lo(0, 2) == 2 && Hi(3, 0, 2) == 3
  {
    assert Pow2(0) == 1 && Pow2(1) == 2 && Pow2(2) == 4;
  }

  /** Three transactions, the third matched: four bits and two hashes. */
  lemma ThreeTransactions(f: PairHash, a: Hash, b: Hash, c: Hash)
    ensures Width(3, 2) == 1
    ensures Build(f, [a, b, c], [false, false, true], 2, 0) == Proof([true, false, true, true], [f(a, b), c])
  {
    hide Width, Lo, Hi, Pow2;
    ThreeWide();
    var txids, chosen := [a, b, c], [false, false, true];
    assert chosen[2];
    assert NodeMatched(chosen, 2, 0) && !NodeMatched(chosen, 1, 0);
    assert NodeMatched(chosen, 1, 1) && NodeMatched(chosen, 0, 2);
    assert CalcHash(f, txids, 0, 0) == a && CalcHash(f, txids, 0, 1) == b;
    assert CalcHash(f, txids, 1, 0) == f(a, b);
    assert Build(f, txids, chosen, 0, 2) == Proof([true], [c]);
    assert Build(f, txids, chosen, 1, 1) == Proof([true, true], [c]);
    assert Build(f, txids, chosen, 1, 0) == Proof([false], [f(a, b)]);
  }

  // ----- extracting

  datatype Walked = Walked(hash: Hash, b: nat, k: nat, bad: bool, found: seq<(nat, Hash)>)

  /** The walk back, from bit b and hash k on; it goes bad when it runs out of either,
      or when two children have one hash. */
  function Walk(f: PairHash, n: nat, bits: seq<bool>, hashes: seq<Hash>, b: nat, k: nat, h: nat, pos: nat): Walked
    requires pos < Width(n, h)
    decreases h
  {
    if b >= |bits| then Walked(0, b, k, true, [])
    else if h == 0 || !bits[b] then
      if k >= |hashes| then Walked(0, b + 1, k, true, [])
      else Walked(hashes[k], b + 1, k + 1, false, if bits[b] then [(pos, hashes[k])] else [])
    else
      Split(n, h, pos);
      var left := Walk(f, n, bits, hashes, b + 1, k, h - 1, 2 * pos);
      if 2 * pos + 1 < Width(n, h - 1) then
        var right := Walk(f, n, bits, hashes, left.b, left.k, h - 1, 2 * pos + 1);
        Walked(f(left.hash, right.hash), right.b, right.k, left.bad || right.bad || left.hash == right.hash,
               left.found + right.found)
      else left.(hash := f(left.hash, left.hash))
  }

  /** Somewhere the walk goes, two children have the same hash. */
  ghost predicate Twins(f: PairHash, txids: seq<Hash>, chosen: seq<bool>, h: nat, pos: nat)
    requires |txids| == |chosen| && pos < Width(|txids|, h)
  {
    h > 0 && NodeMatched(chosen, h, pos) &&
    (Split(|txids|, h, pos);
     || Twins(f, txids, chosen, h - 1, 2 * pos)
     || (2 * pos + 1 < Width(|txids|, h - 1)
         && (Twins(f, txids, chosen, h - 1, 2 * pos + 1)
             || CalcHash(f, txids, h - 1, 2 * pos) == CalcHash(f, txids, h - 1, 2 * pos + 1))))
  }

  lemma {:induction false} NoTwins(f: PairHash, txids: seq<Hash>, chosen: seq<bool>, h: nat, pos: nat)
    requires |txids| == |chosen| && pos < Width(|txids|, h) && Injective(f) && Distinct(txids)
    ensures !Twins(f, txids, chosen, h, pos)
    decreases h
  {
    hide NodeMatched, Width, CalcHash, Injective;
    if h > 0 {
      Split(|txids|, h, pos);
      NoTwins(f, txids, chosen, h - 1, 2 * pos);
      if 2 * pos + 1 < Width(|txids|, h - 1) {
        NoTwins(f, txids, chosen, h - 1, 2 * pos + 1);
        HashesDiffer(f, txids, h - 1, 2 * pos, 2 * pos + 1);
      }
    }
  }

  ghost predicate At<T>(whole: seq<T>, i: nat, part: seq<T>) {
    i + |part| <= |whole| && whole[i..i + |part|] == part
  }

  lemma AtSplit<T>(whole: seq<T>, i: nat, a: seq<T>, b: seq<T>)
    requires At(whole, i, a + b)
    ensures At(whole, i, a) && At(whole, i + |a|, b)
  {
    assert whole[i..i + |a|] == (a + b)[..|a|];
    assert whole[i + |a|..i + |a| + |b|] == (a + b)[|a|..];
  }

  /** A node the walk goes below, with two children or with one. */
  lemma InnerNode(f: PairHash, txids: seq<Hash>, chosen: seq<bool>, h: nat, pos: nat)
    requires |txids| == |chosen| && h > 0 && pos < Width(|txids|, h) && NodeMatched(chosen, h, pos)
    ensures 2 * pos < Width(|txids|, h - 1)
    ensures
      var (p, l) := (Build(f, txids, chosen, h, pos), Build(f, txids, chosen, h - 1, 2 * pos));
      var cl := CalcHash(f, txids, h - 1, 2 * pos);
      if 2 * pos + 1 < Width(|txids|, h - 1) then
        var (r, cr) := (Build(f, txids, chosen, h - 1, 2 * pos + 1), CalcHash(f, txids, h - 1, 2 * pos + 1));
        && p.bits == [true] + l.bits + r.bits && p.hashes == l.hashes + r.hashes
        && CalcHash(f, txids, h, pos) == f(cl, cr)
        && Twins(f, txids, chosen, h, pos) ==
           (Twins(f, txids, chosen, h - 1, 2 * pos) || Twins(f, txids, chosen, h - 1, 2 * pos + 1) || cl == cr)
      else
        && p.bits == [true] + l.bits && p.hashes == l.hashes && CalcHash(f, txids, h, pos) == f(cl, cl)
        && Twins(f, txids, chosen, h, pos) == Twins(f, txids, chosen, h - 1, 2 * pos)
  {
    hide NodeMatched, Width;
    Split(|txids|, h, pos);
  }

  lemma OuterNode(f: PairHash, txids: seq<Hash>, chosen: seq<bool>, h: nat, pos: nat)
    requires |txids| == |chosen| && pos < Width(|txids|, h) && (h == 0 || !NodeMatched(chosen, h, pos))
    ensures Build(f, txids, chosen, h, pos) == Proof([NodeMatched(chosen, h, pos)], [CalcHash(f, txids, h, pos)])
    ensures !Twins(f, txids, chosen, h, pos)
  {
  }

  lemma WalkInner(f: PairHash, n: nat, bits: seq<bool>, hashes: seq<Hash>, b: nat, k: nat, h: nat, pos: nat)
    requires h > 0 && pos < Width(n, h) && b < |bits| && bits[b]
    ensures 2 * pos < Width(n, h - 1)
    ensures
      var (w, l) := (Walk(f, n, bits, hashes, b, k, h, pos), Walk(f, n, bits, hashes, b + 1, k, h - 1, 2 * pos));
      if 2 * pos + 1 < Width(n, h - 1) then
        var r := Walk(f, n, bits, hashes, l.b, l.k, h - 1, 2 * pos + 1);
        w == Walked(f(l.hash, r.hash), r.b, r.k, l.bad || r.bad || l.hash == r.hash, l.found + r.found)
      else w == l.(hash := f(l.hash, l.hash))
  {
    hide Width;
    Split(n, h, pos);
  }

  lemma WalkFails(f: PairHash, n: nat, bits: seq<bool>, hashes: seq<Hash>, b: nat, k: nat, h: nat, pos: nat)
    requires pos < Width(n, h)
    ensures b >= |bits| ==> Walk(f, n, bits, hashes, b, k, h, pos) == Walked(0, b, k, true, [])
    ensures b < |bits| && k >= |hashes| && (h == 0 || !bits[b])
      ==> Walk(f, n, bits, hashes, b, k, h, pos) == Walked(0, b + 1, k, true, [])
  {
  }

  lemma WalkOuter(f: PairHash, n: nat, bits: seq<bool>, hashes: seq<Hash>, b: nat, k: nat, h: nat, pos: nat)
    requires pos < Width(n, h) && b < |bits| && k < |hashes| && (h == 0 || !bits[b])
    ensures Walk(f, n, bits, hashes, b, k, h, pos)
         == Walked(hashes[k], b + 1, k + 1, false, if bits[b] then [(pos, hashes[k])] else [])
  {
  }

  /** Walking what was built: every node's hash is the true one, the matches are those chosen,
      exactly the stored bits and hashes are used, and only twins go bad. */
  lemma {:induction false} WalkBuild(f: PairHash, txids: seq<Hash>, chosen: seq<bool>,
                                     bits: seq<bool>, hashes: seq<Hash>, b: nat, k: nat, h: nat, pos: nat)
    requires |txids| == |chosen| && pos < Width(|txids|, h)
    requires At(bits, b, Build(f, txids, chosen, h, pos).bits) && At(hashes, k, Build(f, txids, chosen, h, pos).hashes)
    ensures var p := Build(f, txids, chosen, h, pos);
      Walk(f, |txids|, bits, hashes, b, k, h, pos) ==
      Walked(CalcHash(f, txids, h, pos), b + |p.bits|, k + |p.hashes|,
             Twins(f, txids, chosen, h, pos), Below(txids, chosen, h, pos))
    decreases h
  {
    hide NodeMatched, Width, Below, At, Build, Walk, CalcHash, Twins;
    var n, p := |txids|, Build(f, txids, chosen, h, pos);
    AtHead(bits, b, p.bits);
    AtHead(hashes, k, p.hashes);
    if h == 0 || !NodeMatched(chosen, h, pos) {
      OuterNode(f, txids, chosen, h, pos);
      WalkOuter(f, n, bits, hashes, b, k, h, pos);
      BelowNone(txids, chosen, h, pos);
      LeafFound(f, txids, chosen, h, pos);
    } else {
      InnerNode(f, txids, chosen, h, pos);
      WalkInner(f, n, bits, hashes, b, k, h, pos);
      BelowSplit(txids, chosen, h, pos);
      var left := Build(f, txids, chosen, h - 1, 2 * pos);
      if 2 * pos + 1 < Width(n, h - 1) {
        var right := Build(f, txids, chosen, h - 1, 2 * pos + 1);
        AtSplit(bits, b, [true] + left.bits, right.bits);
        AtSplit(bits, b, [true], left.bits);
        AtSplit(hashes, k, left.hashes, right.hashes);
        WalkBuild(f, txids, chosen, bits, hashes, b + 1, k, h - 1, 2 * pos);
        WalkBuild(f, txids, chosen, bits, hashes, b + 1 + |left.bits|, k + |left.hashes|, h - 1, 2 * pos + 1);
      } else {
        AtSplit(bits, b, [true], left.bits);
        WalkBuild(f, txids, chosen, bits, hashes, b + 1, k, h - 1, 2 * pos);
      }
    }
  }

  lemma LeafFound(f: PairHash, txids: seq<Hash>, chosen: seq<bool>, h: nat, pos: nat)
    requires |txids| == |chosen| && pos < Width(|txids|, h)
    ensures h == 0 && NodeMatched(chosen, 0, pos) ==>
              Below(txids, chosen, h, pos) == [(pos, CalcHash(f, txids, h, pos))]
  {
    if h == 0 {
      WidthZero(|txids|);
      BelowLeaf(txids, chosen, pos);
    }
  }

  lemma WidthZero(n: nat)
    ensures Width(n, 0) == n
  {
  }

  lemma AtHead<T>(whole: seq<T>, i: nat, part: seq<T>)
    requires At(whole, i, part)
    ensures i + |part| <= |whole| && (part != [] ==> i < |whole| && whole[i] == part[0])
  {
  }

  /** Whatever the bits and hashes: a walk that arrives at the true hash found only true pairs,
      below its node and in order. */
  lemma {:induction false} WalkAuthentic(f: PairHash, txids: seq<Hash>, bits: seq<bool>, hashes: seq<Hash>,
                                         b: nat, k: nat, h: nat, pos: nat)
    requires pos < Width(|txids|, h) && Injective(f)
    requires Walk(f, |txids|, bits, hashes, b, k, h, pos).hash == CalcHash(f, txids, h, pos)
    ensures forall i :: 0 <= i < |Walk(f, |txids|, bits, hashes, b, k, h, pos).found| ==>
      var m := Walk(f, |txids|, bits, hashes, b, k, h, pos).found[i];
      Lo(h, pos) <= m.0 < Hi(|txids|, h, pos) <= |txids| && txids[m.0] == m.1
    ensures var found := Walk(f, |txids|, bits, hashes, b, k, h, pos).found;
      forall i, j :: 0 <= i < j < |found| ==> found[i].0 < found[j].0
    decreases h
  {
    hide Width, Lo, Hi, Walk;
    var n, w := |txids|, Walk(f, |txids|, bits, hashes, b, k, h, pos);
    RangeProper(n, h, pos);
    if h > 0 && b < |bits| && bits[b] {
      Split(n, h, pos);
      WalkInner(f, n, bits, hashes, b, k, h, pos);
      WalkAuthentic(f, txids, bits, hashes, b + 1, k, h - 1, 2 * pos);
      var left := Walk(f, n, bits, hashes, b + 1, k, h - 1, 2 * pos);
      if 2 * pos + 1 < Width(n, h - 1) {
        WalkAuthentic(f, txids, bits, hashes, left.b, left.k, h - 1, 2 * pos + 1);
      }
    } else {
      WalkStops(f, n, bits, hashes, b, k, h, pos);
      if h == 0 { LeafRange(n, pos); }
    }
  }

  lemma WalkStops(f: PairHash, n: nat, bits: seq<bool>, hashes: seq<Hash>, b: nat, k: nat, h: nat, pos: nat)
    requires pos < Width(n, h) && (h == 0 || b >= |bits| || !bits[b])
    ensures var w := Walk(f, n, bits, hashes, b, k, h, pos);
      w.found == [] || (h == 0 && w.found == [(pos, w.hash)])
  {
  }

  lemma LeafRange(n: nat, pos: nat)
    requires pos < Width(n, 0)
    ensures Lo(0, pos) == pos && Hi(n, 0, pos) == pos + 1
  {
  }

  // ----- whole proofs

  /** The first row that has a single node, from row h on. */
  function Height(n: nat, h: nat): (top: nat)
    ensures h <= top && Width(n, top) <= 1 && forall g :: h <= g < top ==> Width(n, g) > 1
    decreases Width(n, h)
  {
    if Width(n, h) <= 1 then h else
    WidthHalf(n, h + 1);
    Height(n, h + 1)
  }

  lemma TopExists(n: nat)
    requires n > 0
    ensures Width(n, Height(n, 0)) == 1 && Lo(Height(n, 0), 0) == 0 && Hi(n, Height(n, 0), 0) == n
  {
    InWidth(n, Height(n, 0), 0);
    InWidth(n, Height(n, 0), 1);
  }

  function RootWalk(f: PairHash, n: nat, bits: seq<bool>, hashes: seq<Hash>): Walked
    requires n > 0
  {
    TopExists(n);
    Walk(f, n, bits, hashes, 0, 0, Height(n, 0), 0)
  }

  predicate Accepted(f: PairHash, n: nat, bits: seq<bool>, hashes: seq<Hash>) {
    && 0 < n <= MAX_TRANSACTIONS && |hashes| <= n && |hashes| <= |bits|
    && var w := RootWalk(f, n, bits, hashes);
       !w.bad && (w.b + 7) / 8 == (|bits| + 7) / 8 && w.k == |hashes|
  }

  function Root(f: PairHash, txids: seq<Hash>): Hash
    requires txids != []
  {
    TopExists(|txids|);
    CalcHash(f, txids, Height(|txids|, 0), 0)
  }

  ghost function Whole(f: PairHash, txids: seq<Hash>, chosen: seq<bool>): Proof
    requires |txids| == |chosen| > 0
  {
    TopExists(|txids|);
    Build(f, txids, chosen, Height(|txids|, 0), 0)
  }

  /** A proof, with its bits padded to whole bytes, is accepted unless the block is too long or
      two children have one hash; the root and the chosen transactions, with their positions, come back. */
  lemma RoundTrip(f: PairHash, txids: seq<Hash>, chosen: seq<bool>, bits: seq<bool>)
    requires |txids| == |chosen| > 0
    requires Whole(f, txids, chosen).bits <= bits && |bits| == (|Whole(f, txids, chosen).bits| + 7) / 8 * 8
    ensures Width(|txids|, Height(|txids|, 0)) == 1
    ensures var hashes := Whole(f, txids, chosen).hashes;
      && (Accepted(f, |txids|, bits, hashes)
          <==> |txids| <= 16666 && !Twins(f, txids, chosen, Height(|txids|, 0), 0))
      && RootWalk(f, |txids|, bits, hashes).hash == Root(f, txids)
      && RootWalk(f, |txids|, bits, hashes).found == Picked(txids, chosen, 0, |txids|)
    ensures Injective(f) && Distinct(txids) ==> !Twins(f, txids, chosen, Height(|txids|, 0), 0)
  {
    hide Walk, Build, CalcHash, Twins, Width, Height, Injective, Distinct, Picked;
    var n, h, p := |txids|, Height(|txids|, 0), Whole(f, txids, chosen);
    TopExists(n);
    BuildBounds(f, txids, chosen, h, 0);
    assert At(bits, 0, p.bits) && At(p.hashes, 0, p.hashes);
    WalkBuild(f, txids, chosen, bits, p.hashes, 0, 0, h, 0);
    if Injective(f) && Distinct(txids) { NoTwins(f, txids, chosen, h, 0); }
  }

  /** An accepted proof with the root of a block of its length names only transactions of that block,
      each at its place, and none twice. */
  lemma Authentic(f: PairHash, txids: seq<Hash>, bits: seq<bool>, hashes: seq<Hash>)
    requires Injective(f) && txids != [] && Accepted(f, |txids|, bits, hashes)
    requires RootWalk(f, |txids|, bits, hashes).hash == Root(f, txids)
    ensures var found := RootWalk(f, |txids|, bits, hashes).found;
      && (forall i :: 0 <= i < |found| ==> found[i].0 < |txids| && txids[found[i].0] == found[i].1)
      && (forall i, j :: 0 <= i < j < |found| ==> found[i].0 < found[j].0)
  {
    hide Walk, CalcHash, Width, Height, Injective;
    TopExists(|txids|);
    WalkAuthentic(f, txids, bits, hashes, 0, 0, Height(|txids|, 0), 0);
  }

  // ----- nothing is left over

  /** A walk that does not go bad does not look at what follows. */
  lemma {:induction false} WalkExtends(f: PairHash, n: nat, bits: seq<bool>, hashes: seq<Hash>, b: nat, k: nat, h: nat,
                                       pos: nat, moreBits: seq<bool>, moreHashes: seq<Hash>)
    requires pos < Width(n, h) && !Walk(f, n, bits, hashes, b, k, h, pos).bad
    ensures Walk(f, n, bits + moreBits, hashes + moreHashes, b, k, h, pos) == Walk(f, n, bits, hashes, b, k, h, pos)
    decreases h
  {
    hide Walk, Width;
    WalkFails(f, n, bits, hashes, b, k, h, pos);
    var bs, hs := bits + moreBits, hashes + moreHashes;
    if h == 0 || !bits[b] {
      WalkOuter(f, n, bits, hashes, b, k, h, pos);
      WalkOuter(f, n, bs, hs, b, k, h, pos);
    } else {
      WalkInner(f, n, bits, hashes, b, k, h, pos);
      WalkInner(f, n, bs, hs, b, k, h, pos);
      WalkExtends(f, n, bits, hashes, b + 1, k, h - 1, 2 * pos, moreBits, moreHashes);
      if 2 * pos + 1 < Width(n, h - 1) {
        var l := Walk(f, n, bits, hashes, b + 1, k, h - 1, 2 * pos);
        WalkExtends(f, n, bits, hashes, l.b, l.k, h - 1, 2 * pos + 1, moreBits, moreHashes);
      }
    }
  }

  /** A proof that is accepted is not accepted with another hash at its end, nor with another byte of bits. */
  lemma NothingToSpare(f: PairHash, n: nat, bits: seq<bool>, hashes: seq<Hash>, moreBits: seq<bool>,
                       moreHashes: seq<Hash>)
    requires Accepted(f, n, bits, hashes) && Accepted(f, n, bits + moreBits, hashes + moreHashes)
    ensures moreHashes == [] && (|bits + moreBits| + 7) / 8 == (|bits| + 7) / 8
    ensures RootWalk(f, n, bits + moreBits, hashes) == RootWalk(f, n, bits, hashes)
  {
    hide Walk, Width, Height;
    TopExists(n);
    WalkExtends(f, n, bits, hashes, 0, 0, Height(n, 0), 0, moreBits, moreHashes);
    assert hashes + [] == hashes;
  }

  /** A walk takes at most one hash for each bit, and for each transaction below its node. */
  lemma {:induction false} WalkTakes(f: PairHash, n: nat, bits: seq<bool>, hashes: seq<Hash>, b: nat, k: nat, h: nat,
                                     pos: nat)
    requires pos < Width(n, h) && b <= |bits| && k <= |hashes|
    ensures var w := Walk(f, n, bits, hashes, b, k, h, pos);
      && b <= w.b <= |bits| && k <= w.k <= |hashes| && w.k - k <= w.b - b
      && w.k - k <= Hi(n, h, pos) - Lo(h, pos)
    decreases h
  {
    hide Walk, Width, Hi, Lo;
    WalkFails(f, n, bits, hashes, b, k, h, pos);
    RangeProper(n, h, pos);
    if b < |bits| {
      if h == 0 || !bits[b] {
        if k < |hashes| { WalkOuter(f, n, bits, hashes, b, k, h, pos); }
      } else {
        Split(n, h, pos);
        WalkInner(f, n, bits, hashes, b, k, h, pos);
        WalkTakes(f, n, bits, hashes, b + 1, k, h - 1, 2 * pos);
        if 2 * pos + 1 < Width(n, h - 1) {
          var l := Walk(f, n, bits, hashes, b + 1, k, h - 1, 2 * pos);
          WalkTakes(f, n, bits, hashes, l.b, l.k, h - 1, 2 * pos + 1);
        }
      }
    }
  }

  /** So the two tests of lengths that come before the walk refuse nothing that would pass the tests after it. */
  lemma EarlyTests(f: PairHash, n: nat, bits: seq<bool>, hashes: seq<Hash>)
    requires n > 0 && RootWalk(f, n, bits, hashes).k == |hashes|
    ensures |hashes| <= n && |hashes| <= |bits|
  {
    hide Walk, Width, Height;
    TopExists(n);
    WalkTakes(f, n, bits, hashes, 0, 0, Height(n, 0), 0);
  }

  // ----- the root of a block

  /** Pairs of neighbours are hashed together; a last one without a neighbour, with itself. */
  function NextRow(f: PairHash, row: seq<Hash>): seq<Hash> {
    seq((|row| + 1) / 2, i requires 0 <= i < (|row| + 1) / 2 =>
      f(row[2 * i], row[if 2 * i + 1 < |row| then 2 * i + 1 else 2 * i]))
  }

  lemma NextRowLength(f: PairHash, row: seq<Hash>)
    ensures |NextRow(f, row)| == (|row| + 1) / 2
  {
  }

  lemma NextRowAt(f: PairHash, row: seq<Hash>, i: nat)
    requires 2 * i < |row|
    ensures i < |NextRow(f, row)|
    ensures NextRow(f, row)[i] == f(row[2 * i], if 2 * i + 1 < |row| then row[2 * i + 1] else row[2 * i])
  {
  }

  ghost function Row(f: PairHash, txids: seq<Hash>, h: nat): seq<Hash> {
    if h == 0 then txids else NextRow(f, Row(f, txids, h - 1))
  }

  /** The nodes of one height are the rows of the block's computation. */
  lemma {:induction false} RowIs(f: PairHash, txids: seq<Hash>, h: nat)
    ensures |Row(f, txids, h)| == Width(|txids|, h)
    ensures forall pos :: 0 <= pos < Width(|txids|, h) ==> Row(f, txids, h)[pos] == CalcHash(f, txids, h, pos)
  {
    if h == 0 {
      WidthZero(|txids|);
    } else {
      hide Width, NextRow;
      RowIs(f, txids, h - 1);
      WidthHalf(|txids|, h);
      NextRowLength(f, Row(f, txids, h - 1));
      forall pos | 0 <= pos < Width(|txids|, h) ensures Row(f, txids, h)[pos] == CalcHash(f, txids, h, pos) {
        Split(|txids|, h, pos);
        NextRowAt(f, Row(f, txids, h - 1), pos);
      }
    }
  }

  /** Two neighbours that are hashed together are equal. */
  ghost predicate EqualPair(row: seq<Hash>, i: nat) { 2 * i + 1 < |row| && row[2 * i] == row[2 * i + 1] }

  ghost predicate SomeEqualPair(f: PairHash, txids: seq<Hash>, h: nat) {
    exists g: nat :: g < h && PairInRow(f, txids, g)
  }

  ghost predicate PairInRow(f: PairHash, txids: seq<Hash>, g: nat) {
    exists i: nat :: EqualPair(Row(f, txids, g), i)
  }

  /** The pairs of a row that are equal, as ComputeMerkleRoot looks for them. */
  method FindEqualPair(row: seq<Hash>) returns (found: bool)
    ensures found <==> exists i: nat :: EqualPair(row, i)
  {
    found := false;
    var pos := 0;
    while pos + 1 < |row|
      invariant 0 <= pos && pos % 2 == 0
      invariant found <==> exists i: nat :: 2 * i < pos && EqualPair(row, i)
    {
      if row[pos] == row[pos + 1] {
        assert EqualPair(row, pos / 2);
        found := true;
      }
      pos := pos + 2;
    }
  }

  /** The root the block header commits to is the one a proof leads to; the flag says whether somewhere two
      different nodes that are hashed together are equal. */
  method ComputeMerkleRoot(f: PairHash, txids: seq<Hash>) returns (root: Hash, mutated: bool)
    ensures txids == [] ==> root == 0 && !mutated
    ensures txids != [] ==> root == Root(f, txids) && (mutated <==> SomeEqualPair(f, txids, Height(|txids|, 0)))
  {
    hide Width, NextRow, Height, CalcHash, EqualPair;
    var hashes := txids;
    mutated := false;
    ghost var h := 0;
    RowIs(f, txids, 0);
    while |hashes| > 1
      invariant hashes == Row(f, txids, h) && |hashes| == Width(|txids|, h)
      invariant Height(|txids|, h) == Height(|txids|, 0)
      invariant mutated <==> SomeEqualPair(f, txids, h)
      decreases |hashes|
    {
      var found := FindEqualPair(hashes);
      MorePairs(f, txids, h);
      mutated := mutated || found;
      HeightNext(|txids|, h);
      RowIs(f, txids, h + 1);
      var next := HashPairs(f, hashes);
      hashes := next;
      h := h + 1;
    }
    HeightDone(|txids|, h);
    RowIs(f, txids, h);
    root := if |hashes| == 0 then 0 else hashes[0];
    if txids != [] { TopExists(|txids|); } else { NoRow(f, h); }
  }

  lemma NoRow(f: PairHash, h: nat)
    ensures Width(0, h) == 0 && !SomeEqualPair(f, [], h)
  {
    hide Width;
    forall g: nat ensures Width(0, g) == 0 { InWidth(0, g, 0); }
    forall g: nat ensures !PairInRow(f, [], g) { RowIs(f, [], g); }
  }

  lemma HeightNext(n: nat, h: nat)
    requires Width(n, h) > 1
    ensures Height(n, h + 1) == Height(n, h) && Width(n, h + 1) < Width(n, h)
  {
    hide Width;
    WidthHalf(n, h + 1);
  }

  lemma HeightDone(n: nat, h: nat)
    requires Width(n, h) <= 1
    ensures Height(n, h) == h
  {
    hide Width;
  }

  lemma MorePairs(f: PairHash, txids: seq<Hash>, h: nat)
    ensures SomeEqualPair(f, txids, h + 1) <==> SomeEqualPair(f, txids, h) || PairInRow(f, txids, h)
  {
    hide PairInRow;
    if SomeEqualPair(f, txids, h + 1) {
      var g: nat :| g < h + 1 && PairInRow(f, txids, g);
      assert g < h || g == h;
    }
  }

  /** A row with its last hash doubled if their number is odd, and each pair replaced by its hash. */
  method HashPairs(f: PairHash, row: seq<Hash>) returns (next: seq<Hash>)
    requires |row| > 1
    ensures next == NextRow(f, row)
  {
    var even := row;
    if |row| % 2 == 1 {
      even := even + [row[|row| - 1]];
    }
    next := [];
    for i := 0 to |even| / 2
      invariant |next| == i && next == NextRow(f, row)[..i]
    {
      next := next + [f(even[2 * i], even[2 * i + 1])];
    }
  }

  // ----- mutated blocks and refused proofs

  /** A walk that finds equal children comes from a block that would be flagged. */
  lemma {:induction false} TwinsFlagged(f: PairHash, txids: seq<Hash>, chosen: seq<bool>, h: nat, pos: nat)
    requires |txids| == |chosen| && pos < Width(|txids|, h) && Twins(f, txids, chosen, h, pos)
    ensures SomeEqualPair(f, txids, h)
    decreases h
  {
    hide NodeMatched, Width, CalcHash, Row;
    Split(|txids|, h, pos);
    RowIs(f, txids, h - 1);
    if Twins(f, txids, chosen, h - 1, 2 * pos) {
      TwinsFlagged(f, txids, chosen, h - 1, 2 * pos);
    } else if Twins(f, txids, chosen, h - 1, 2 * pos + 1) {
      TwinsFlagged(f, txids, chosen, h - 1, 2 * pos + 1);
    } else {
      assert EqualPair(Row(f, txids, h - 1), pos);
      assert PairInRow(f, txids, h - 1);
    }
  }

  /** Node i of a row is below node pos of the row that is k higher. */
  ghost predicate Under(pos: nat, k: nat, i: nat) { pos * Pow2(k) <= i < (pos + 1) * Pow2(k) }

  lemma UnderItself(pos: nat, i: nat)
    requires Under(pos, 0, i)
    ensures i == pos
  {
  }

  lemma UnderChild(pos: nat, k: nat, i: nat)
    requires k > 0 && Under(pos, k, i)
    ensures Under(2 * pos, k - 1, i) || Under(2 * pos + 1, k - 1, i)
  {
    hide Pow2;
    Pow2Next(k - 1);
    Double(pos, Pow2(k - 1));
    Double(pos + 1, Pow2(k - 1));
    MulAssoc(2, pos, Pow2(k - 1));
    MulAssoc(2, pos + 1, Pow2(k - 1));
  }

  /** A walk of the whole tree finds every equal pair below its node. */
  lemma {:induction false} FlaggedTwins(f: PairHash, txids: seq<Hash>, chosen: seq<bool>, h: nat, pos: nat, g: nat,
                                        i: nat)
    requires |txids| == |chosen| && pos < Width(|txids|, h) && forall t :: 0 <= t < |chosen| ==> chosen[t]
    requires g < h && EqualPair(Row(f, txids, g), i) && Under(pos, h - g - 1, i)
    ensures Twins(f, txids, chosen, h, pos)
    decreases h
  {
    hide Width, CalcHash, Row, NodeMatched, EqualPair, Under;
    AllMatched(chosen, h, pos);
    Split(|txids|, h, pos);
    if g == h - 1 {
      UnderItself(pos, i);
      PairAt(f, txids, g, i);
    } else {
      UnderChild(pos, h - g - 1, i);
      if Under(2 * pos, h - g - 2, i) {
        FlaggedTwins(f, txids, chosen, h - 1, 2 * pos, g, i);
      } else {
        NodeOfPair(f, txids, h - 1, 2 * pos + 1, g, i);
        FlaggedTwins(f, txids, chosen, h - 1, 2 * pos + 1, g, i);
      }
    }
  }

  lemma PairAt(f: PairHash, txids: seq<Hash>, g: nat, i: nat)
    requires EqualPair(Row(f, txids, g), i)
    ensures 2 * i + 1 < Width(|txids|, g) && CalcHash(f, txids, g, 2 * i) == CalcHash(f, txids, g, 2 * i + 1)
  {
    hide Width, Row, CalcHash;
    RowIs(f, txids, g);
  }

  lemma AllMatched(chosen: seq<bool>, h: nat, pos: nat)
    requires pos < Width(|chosen|, h) && forall t :: 0 <= t < |chosen| ==> chosen[t]
    ensures NodeMatched(chosen, h, pos)
  {
    RangeProper(|chosen|, h, pos);
    assert chosen[Lo(h, pos)];
  }

  /** The node that an existing pair is below exists. */
  lemma NodeOfPair(f: PairHash, txids: seq<Hash>, h: nat, pos: nat, g: nat, i: nat)
    requires g < h && EqualPair(Row(f, txids, g), i) && Under(pos, h - g - 1, i)
    ensures pos < Width(|txids|, h)
  {
    hide Width, Row, Pow2, EqualPair;
    PairAt(f, txids, g, i);
    InWidth(|txids|, g, 2 * i);
    InWidth(|txids|, h, pos);
    Pow2Next(h - g - 1);
    Pow2Add(h - g, g);
    MulAssoc(pos, Pow2(h - g), Pow2(g));
    Double(pos, Pow2(h - g - 1));
    MulLe(pos * Pow2(h - g), 2 * i, Pow2(g));
  }

  /** The flag of a block tells whether proofs for it can be refused: a block without it has only proofs that are
      accepted, and with it the proof for all of its transactions is refused. */
  lemma MutatedRefused(f: PairHash, txids: seq<Hash>)
    requires txids != []
    ensures Width(|txids|, Height(|txids|, 0)) == 1
    ensures SomeEqualPair(f, txids, Height(|txids|, 0)) <==>
            Twins(f, txids, seq(|txids|, i => true), Height(|txids|, 0), 0)
    ensures !SomeEqualPair(f, txids, Height(|txids|, 0)) ==>
              forall chosen: seq<bool> :: |chosen| == |txids| ==> !Twins(f, txids, chosen, Height(|txids|, 0), 0)
  {
    hide Width, Height, Twins, EqualPair, Row;
    var n, h := |txids|, Height(|txids|, 0);
    TopExists(n);
    var all := seq(n, i => true);
    if SomeEqualPair(f, txids, h) {
      var g: nat :| g < h && PairInRow(f, txids, g);
      var i: nat :| EqualPair(Row(f, txids, g), i);
      PairBelowTop(f, txids, h, g, i);
      FlaggedTwins(f, txids, all, h, 0, g, i);
    }
    forall chosen: seq<bool> | |chosen| == n && Twins(f, txids, chosen, h, 0) ensures SomeEqualPair(f, txids, h) {
      TwinsFlagged(f, txids, chosen, h, 0);
    }
  }

  lemma PairBelowTop(f: PairHash, txids: seq<Hash>, h: nat, g: nat, i: nat)
    requires g < h && Width(|txids|, h) == 1 && EqualPair(Row(f, txids, g), i)
    ensures Under(0, h - g - 1, i)
  {
    hide Width, Row, EqualPair, Pow2;
    var p := i / Pow2(h - g - 1);
    DivMod(i, Pow2(h - g - 1));
    MulAdd(p, 1, Pow2(h - g - 1));
    NodeOfPair(f, txids, h, p, g, i);
  }

  function Positions(found: seq<(nat, Hash)>): seq<nat> { seq(|found|, i requires 0 <= i < |found| => found[i].0) }

  function Txids(found: seq<(nat, Hash)>): seq<Hash> { seq(|found|, i requires 0 <= i < |found| => found[i].1) }

  lemma FoundAppend(a: seq<(nat, Hash)>, b: seq<(nat, Hash)>)
    ensures Positions(a + b) == Positions(a) + Positions(b) && Txids(a + b) == Txids(a) + Txids(b)
  {
  }

  lemma FoundOne(pos: nat, hash: Hash)
    ensures Positions([(pos, hash)]) == [pos] && Txids([(pos, hash)]) == [hash]
  {
  }

  lemma FoundNone()
    ensures Positions([]) == [] && Txids([]) == []
  {
  }

  // ----- bits in bytes

  ghost predicate Packs(bytes: seq<bv8>, bits: seq<bool>) {
    && |bytes| == (|bits| + 7) / 8
    && forall p :: 0 <= p < 8 * |bytes| ==> Bit(bytes[p / 8], p % 8) == (p < |bits| && bits[p])
  }

  class PartialMerkleTree {
    const f: PairHash
    var nTransactions: nat
    var vBits: seq<bool>
    var vHash: seq<Hash>
    var fBad: bool

    /** The proof for the chosen transactions of a block. */
    constructor (f: PairHash, txids: seq<Hash>, chosen: seq<bool>)
      requires |txids| == |chosen| > 0
      ensures this.f == f && nTransactions == |txids| && !fBad
      ensures Proof(vBits, vHash) == Whole(f, txids, chosen)
    {
      this.f := f;
      nTransactions, fBad, vBits, vHash := |txids|, false, [], [];
      new;
      TopExists(nTransactions);
      var h := CalcHeight();
      TraverseAndBuild(h, 0, txids, chosen);
    }

    constructor Null(f: PairHash)
      ensures nTransactions == 0 && fBad
    {
      this.f := f;
      nTransactions, fBad, vBits, vHash := 0, true, [], [];
    }

    method CalcHeight() returns (h: nat)
      ensures h == Height(nTransactions, 0)
    {
      h := 0;
      while Width(nTransactions, h) > 1
        invariant Height(nTransactions, h) == Height(nTransactions, 0)
        decreases Width(nTransactions, h)
      {
        WidthHalf(nTransactions, h + 1);
        h := h + 1;
      }
    }

    method TraverseAndBuild(h: nat, pos: nat, txids: seq<Hash>, chosen: seq<bool>)
      requires |txids| == |chosen| == nTransactions && pos < Width(nTransactions, h)
      modifies this`vBits, this`vHash
      ensures vBits == old(vBits) + Build(f, txids, chosen, h, pos).bits
      ensures vHash == old(vHash) + Build(f, txids, chosen, h, pos).hashes
      decreases h
    {
      hide Width, Build, CalcHash;
      var parentOfMatch := false;
      RangeProper(nTransactions, h, pos);
      var p := pos * Pow2(h);
      while p < (pos + 1) * Pow2(h) && p < nTransactions
        invariant Lo(h, pos) <= p <= Hi(nTransactions, h, pos)
        invariant parentOfMatch <==> Matched(chosen, Lo(h, pos), p)
        invariant vBits == old(vBits) && vHash == old(vHash)
      {
        parentOfMatch := parentOfMatch || chosen[p];
        p := p + 1;
      }
      assert parentOfMatch == NodeMatched(chosen, h, pos);
      vBits := vBits + [parentOfMatch];
      if h == 0 || !parentOfMatch {
        vHash := vHash + [CalcHash(f, txids, h, pos)];
        OuterNode(f, txids, chosen, h, pos);
      } else {
        InnerNode(f, txids, chosen, h, pos);
        TraverseAndBuild(h - 1, 2 * pos, txids, chosen);
        if 2 * pos + 1 < Width(nTransactions, h - 1) {
          TraverseAndBuild(h - 1, 2 * pos + 1, txids, chosen);
        }
      }
    }

    method TraverseAndExtract(h: nat, pos: nat, b: nat, k: nat, vMatch: seq<Hash>, vnIndex: seq<nat>)
      returns (hash: Hash, nBitsUsed: nat, nHashUsed: nat, vMatch': seq<Hash>, vnIndex': seq<nat>)
      requires pos < Width(nTransactions, h)
      modifies this`fBad
      ensures var w := Walk(f, nTransactions, vBits, vHash, b, k, h, pos);
        && hash == w.hash && nBitsUsed == w.b && nHashUsed == w.k && fBad == (old(fBad) || w.bad)
        && vMatch' == vMatch + Txids(w.found) && vnIndex' == vnIndex + Positions(w.found)
      decreases h
    {
      hide Width, Walk, Positions, Txids;
      WalkFails(f, nTransactions, vBits, vHash, b, k, h, pos);
      FoundNone();
      hash, nBitsUsed, nHashUsed, vMatch', vnIndex' := 0, b, k, vMatch, vnIndex;
      if nBitsUsed >= |vBits| {
        fBad := true;
        return;
      }
      var parentOfMatch := vBits[nBitsUsed];
      nBitsUsed := nBitsUsed + 1;
      if h == 0 || !parentOfMatch {
        if nHashUsed >= |vHash| {
          fBad := true;
          return;
        }
        WalkOuter(f, nTransactions, vBits, vHash, b, k, h, pos);
        hash := vHash[nHashUsed];
        FoundOne(pos, hash);
        nHashUsed := nHashUsed + 1;
        if h == 0 && parentOfMatch {
          vMatch' := vMatch' + [hash];
          vnIndex' := vnIndex' + [pos];
        }
      } else {
        WalkInner(f, nTransactions, vBits, vHash, b, k, h, pos);
        ghost var l := Walk(f, nTransactions, vBits, vHash, b + 1, k, h - 1, 2 * pos);
        var left, right;
        left, nBitsUsed, nHashUsed, vMatch', vnIndex' :=
          TraverseAndExtract(h - 1, 2 * pos, nBitsUsed, nHashUsed, vMatch', vnIndex');
        if 2 * pos + 1 < Width(nTransactions, h - 1) {
          ghost var r := Walk(f, nTransactions, vBits, vHash, l.b, l.k, h - 1, 2 * pos + 1);
          FoundAppend(l.found, r.found);
          right, nBitsUsed, nHashUsed, vMatch', vnIndex' :=
            TraverseAndExtract(h - 1, 2 * pos + 1, nBitsUsed, nHashUsed, vMatch', vnIndex');
          if right == left { fBad := true; }
        } else {
          right := left;
        }
        hash := f(left, right);
      }
    }

    /** The root, or zero.  The positions are added to those already in the list. */
    method ExtractMatches(given: seq<nat>) returns (root: Hash, vMatch: seq<Hash>, vnIndex: seq<nat>)
      modifies this`fBad
      ensures var ok := !old(fBad) && Accepted(f, nTransactions, vBits, vHash);
        && root == (if ok then RootWalk(f, nTransactions, vBits, vHash).hash else 0)
        && (ok ==> !fBad && vMatch == Txids(RootWalk(f, nTransactions, vBits, vHash).found)
                   && vnIndex == given + Positions(RootWalk(f, nTransactions, vBits, vHash).found))
    {
      hide Walk, Width, Height;
      root, vMatch, vnIndex := 0, [], given;
      if nTransactions == 0 { return; }
      if nTransactions > MAX_TRANSACTIONS { return; }
      if |vHash| > nTransactions { return; }
      if |vBits| < |vHash| { return; }
      var h := CalcHeight();
      TopExists(nTransactions);
      var hash, nBitsUsed, nHashUsed;
      hash, nBitsUsed, nHashUsed, vMatch, vnIndex := TraverseAndExtract(h, 0, 0, 0, vMatch, vnIndex);
      if fBad { return; }
      if (nBitsUsed + 7) / 8 != (|vBits| + 7) / 8 { return; }
      if nHashUsed != |vHash| { return; }
      root := hash;
    }

    method PackBits() returns (bytes: seq<bv8>)
      ensures Packs(bytes, vBits)
    {
      hide Mask, Bit;
      var buffer := new bv8[(|vBits| + 7) / 8](i => 0);
      forall k | 0 <= k < 8 ensures !Bit(0, k) { NoneSet(k); }
      var p := 0;
      while p < |vBits|
        invariant 0 <= p <= |vBits|
        invariant forall q :: 0 <= q < 8 * buffer.Length ==> Bit(buffer[q / 8], q % 8) == (q < p && vBits[q])
      {
        ghost var was := buffer[p / 8];
        if vBits[p] {
          buffer[p / 8] := buffer[p / 8] | Mask(p % 8);
          forall q | 0 <= q < 8 * buffer.Length ensures Bit(buffer[q / 8], q % 8) == (q < p + 1 && vBits[q]) {
            if q / 8 == p / 8 { SetBit(was, p % 8, q % 8); }
          }
        }
        p := p + 1;
      }
      bytes := buffer[..];
    }

    method UnpackBits(bytes: seq<bv8>)
      modifies this`vBits, this`fBad
      ensures |vBits| == 8 * |bytes| && !fBad
      ensures forall p :: 0 <= p < |vBits| ==> vBits[p] == Bit(bytes[p / 8], p % 8)
    {
      hide Mask, Bit;
      var bits := [];
      for p := 0 to 8 * |bytes|
        invariant |bits| == p && forall q :: 0 <= q < p ==> bits[q] == Bit(bytes[q / 8], q % 8)
      {
        bits := bits + [Bit(bytes[p / 8], p % 8)];
      }
      vBits, fBad := bits, false;
    }
  }

  /** Building, packing, unpacking and extracting. */
  method Transmit(f: PairHash, txids: seq<Hash>, chosen: seq<bool>)
    returns (root: Hash, vMatch: seq<Hash>, vnIndex: seq<nat>)
    requires 0 < |txids| == |chosen| <= MAX_TRANSACTIONS && Injective(f) && Distinct(txids)
    ensures root == Root(f, txids)
    ensures vMatch == Txids(Picked(txids, chosen, 0, |txids|))
    ensures vnIndex == Positions(Picked(txids, chosen, 0, |txids|))
  {
    hide Bit, Mask, Walk, Build, CalcHash, Injective, Distinct, Picked;
    var tree := new PartialMerkleTree(f, txids, chosen);
    var bytes := tree.PackBits();
    tree.UnpackBits(bytes);
    RoundTrip(f, txids, chosen, tree.vBits);
    root, vMatch, vnIndex := tree.ExtractMatches([]);
  }
}
