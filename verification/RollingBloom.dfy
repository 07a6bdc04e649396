/**
 A filter that remembers the most recently inserted keys.  Each position holds two
 bits, in two words of 64: zero, or the number of the generation that last set it.
 There are three numbers, used in turn; before one is used again, what still
 carries it is wiped, 64 positions at a time.
 */
module RollingBloom {
  import opened Arithmetic

  const TWO32: nat := 0x1_0000_0000

  // ----- words of 64 lanes

  type Word = bv64

  function And(x: Word, y: Word): Word { x & y }

  function Or(x: Word, y: Word): Word { x | y }

  function Xor(x: Word, y: Word): Word { x ^ y }

  function Not(x: Word): Word { !x }

  function Unit(v: bool): Word { if v then 1 else 0 }

  function One(b: bv6, v: bool): Word { Unit(v) << b }

  /** All lanes alike: zero, less one or nothing. */
  function Spread(v: bool): Word { 0 - Unit(v) }

  predicate Lane(x: Word, j: bv6) { (x >> j) & 1 == 1 }

  function Put(x: Word, b: bv6, v: bool): Word { Or(And(x, Not(One(b, true))), One(b, v)) }

  function WipeMask(p1: Word, p2: Word, g1: bool, g2: bool): Word { Or(Xor(p1, Spread(g1)), Xor(p2, Spread(g2))) }

  lemma RawAnd(x: Word, y: Word, j: bv6)
    ensures Lane(x & y, j) == (Lane(x, j) && Lane(y, j))
  {
  }

  lemma LaneAnd(x: Word, y: Word, j: bv6)
    ensures Lane(And(x, y), j) == (Lane(x, j) && Lane(y, j))
  {
    hide Lane;
    RawAnd(x, y, j);
  }

  lemma RawOr(x: Word, y: Word, j: bv6)
    ensures Lane(x | y, j) == (Lane(x, j) || Lane(y, j))
  {
  }

  lemma LaneOr(x: Word, y: Word, j: bv6)
    ensures Lane(Or(x, y), j) == (Lane(x, j) || Lane(y, j))
  {
    hide Lane;
    RawOr(x, y, j);
  }

  lemma RawXor(x: Word, y: Word, j: bv6)
    ensures Lane(x ^ y, j) == (Lane(x, j) != Lane(y, j))
  {
  }

  lemma LaneXor(x: Word, y: Word, j: bv6)
    ensures Lane(Xor(x, y), j) == (Lane(x, j) != Lane(y, j))
  {
    hide Lane;
    RawXor(x, y, j);
  }

  lemma LaneNot(x: Word, j: bv6)
    ensures Lane(Not(x), j) == !Lane(x, j)
  {
  }

  lemma LaneOne(b: bv6, j: bv6, v: bool)
    ensures Lane(One(b, v), j) == (j == b && v)
  {
  }

  lemma LaneSpread(v: bool, j: bv6)
    ensures Lane(Spread(v), j) == v
  {
  }

  /** Writing one lane leaves the others alone. */
  lemma PutLane(x: Word, b: bv6, j: bv6, v: bool)
    ensures Lane(Put(x, b, v), j) == if j == b then v else Lane(x, j)
  {
    hide Lane, One, And, Or, Not;
    LaneOr(And(x, Not(One(b, true))), One(b, v), j);
    LaneAnd(x, Not(One(b, true)), j);
    LaneNot(One(b, true), j);
    LaneOne(b, j, true);
    LaneOne(b, j, v);
  }

  /** The mask clears the lanes that carry the generation, and no others. */
  lemma WipeLane(p1: Word, p2: Word, g1: bool, g2: bool, j: bv6)
    ensures var mask := WipeMask(p1, p2, g1, g2);
      var (a, b) := (Lane(p1, j), Lane(p2, j));
      && Lane(And(p1, mask), j) == (a && !(a == g1 && b == g2))
      && Lane(And(p2, mask), j) == (b && !(a == g1 && b == g2))
  {
    hide Lane, Spread, And, Or, Xor;
    var m1, m2 := Xor(p1, Spread(g1)), Xor(p2, Spread(g2));
    LaneAnd(p1, Or(m1, m2), j);
    LaneAnd(p2, Or(m1, m2), j);
    LaneOr(m1, m2, j);
    LaneXor(p1, Spread(g1), j);
    LaneXor(p2, Spread(g2), j);
    LaneSpread(g1, j);
    LaneSpread(g2, j);
  }

  // ----- generations

  type Key = seq<bv8>

  predicate Low(g: nat) { g % 2 == 1 }

  predicate High(g: nat) { g / 2 == 1 }

  /** The generation number at a position: pair w, lane j. */
  function GenAt(data: seq<Word>, w: nat, j: bv6): (g: nat)
    requires 2 * w + 1 < |data|
    ensures g <= 3
  {
    (if Lane(data[2 * w], j) then 1 else 0) + (if Lane(data[2 * w + 1], j) then 2 else 0)
  }

  /** How many generations ago a number was in use. */
  function Age(g: nat, current: nat): nat
    requires g <= 3
  {
    (current + 3 - g) % 3
  }

  function FastMod(x: nat, n: nat): (r: nat)
    requires x < TWO32 && n > 0
    ensures r < n
  {
    MulStep(x, TWO32, n);
    x * n / TWO32
  }

  /** A number of 32 bits as a fraction, of n: rounded down. */
  lemma FastModScales(x: nat, n: nat)
    requires x < TWO32 && n > 0
    ensures FastMod(x, n) < n && FastMod(x, n) * TWO32 <= x * n < (FastMod(x, n) + 1) * TWO32
  {
    MulNat(x, n);
    DivMod(x * n, TWO32);
  }

  lemma WipedAt(data: seq<Word>, next: seq<Word>, w: nat, g: nat, j: bv6)
    requires 2 * w + 1 < |data| == |next| && 1 <= g <= 3
    requires next[2 * w] == And(data[2 * w], WipeMask(data[2 * w], data[2 * w + 1], Low(g), High(g)))
    requires next[2 * w + 1] == And(data[2 * w + 1], WipeMask(data[2 * w], data[2 * w + 1], Low(g), High(g)))
    ensures GenAt(next, w, j) == if GenAt(data, w, j) == g then 0 else GenAt(data, w, j)
  {
    hide Lane, And, WipeMask;
    WipeLane(data[2 * w], data[2 * w + 1], Low(g), High(g), j);
  }

  lemma WrittenAt(data: seq<Word>, next: seq<Word>, w: nat, b: bv6, g: nat, j: bv6)
    requires 2 * w + 1 < |data| == |next| && 1 <= g <= 3
    requires next[2 * w] == Put(data[2 * w], b, Low(g)) && next[2 * w + 1] == Put(data[2 * w + 1], b, High(g))
    ensures GenAt(next, w, j) == if j == b then g else GenAt(data, w, j)
  {
    hide Lane, Put;
    PutLane(data[2 * w], b, j, Low(g));
    PutLane(data[2 * w + 1], b, j, High(g));
  }

  // ----- the filter

  /** MurmurHash3 of a key, with a seed. */
  type Hasher = (nat, Key) -> nat

  /** What a 32-bit hash selects: its low six bits a lane, its upper bits a pair of words. */
  function Hashed(f: Hasher, n: nat, tweak: nat, key: Key): (h: nat)
    ensures h < TWO32
  {
    f((n * 0xFBA4C795 + tweak) % TWO32, key) % TWO32
  }

  function LaneOf(h: nat): bv6 { (h % 64) as bv6 }

  function PairOf(h: nat, size: nat): (w: nat)
    requires h < TWO32 && size > 0 && size % 2 == 0
    ensures 2 * w + 1 < size
  {
    FastMod(h, size) / 2
  }

  /** Position n of the key, in a table of this size: pair w, lane j. */
  ghost predicate IsPosition(f: Hasher, n: nat, tweak: nat, size: nat, key: Key, w: nat, j: bv6) {
    var h := f((n * 0xFBA4C795 + tweak) % 0x1_0000_0000, key) % 0x1_0000_0000;
    j == (h % 64) as bv6 && w == h * size / 0x1_0000_0000 / 2
  }

  lemma PositionIs(f: Hasher, n: nat, tweak: nat, size: nat, key: Key, w: nat, j: bv6)
    requires size > 0 && size % 2 == 0
    ensures var h := Hashed(f, n, tweak, key);
            IsPosition(f, n, tweak, size, key, w, j) <==> j == LaneOf(h) && w == PairOf(h, size)
  {
  }

  /** One of the first m positions of the key. */
  ghost predicate Owns(f: Hasher, m: nat, tweak: nat, size: nat, key: Key, w: nat, j: bv6) {
    exists n :: 0 <= n < m && IsPosition(f, n, tweak, size, key, w, j)
  }

  /** A position of one of the last `count` keys. */
  ghost predicate Recent(f: Hasher, m: nat, tweak: nat, size: nat, log: seq<Key>, count: nat, w: nat, j: bv6) {
    exists i :: 0 <= i < |log| && |log| - count <= i && Owns(f, m, tweak, size, log[i], w, j)
  }

  /** How many keys back a generation of this age reaches, with `entries` in the current one. */
  ghost function Reach(age: nat, entries: nat, perGeneration: nat): nat {
    if age == 0 then entries else if age == 1 then entries + perGeneration else entries + 2 * perGeneration
  }

  /** Whatever is set was set by a recent key. */
  ghost predicate Sourced(f: Hasher, m: nat, tweak: nat, data: seq<Word>, current: nat, log: seq<Key>, entries: nat,
                          perGeneration: nat)
  {
    forall w: nat, j :: 2 * w + 1 < |data| && GenAt(data, w, j) != 0 ==>
      Recent(f, m, tweak, |data|, log, Reach(Age(GenAt(data, w, j), current), entries, perGeneration), w, j)
  }

  /** The positions with the number of a new generation are wiped, and no others change. */
  ghost predicate Wiped(data: seq<Word>, next: seq<Word>, g: nat) {
    && |data| == |next|
    && forall w: nat, j :: 2 * w + 1 < |data| ==>
         GenAt(next, w, j) == if GenAt(data, w, j) == g then 0 else GenAt(data, w, j)
  }

  /** The first m positions of the key carry the current generation, and no others change. */
  ghost predicate Written(f: Hasher, m: nat, tweak: nat, data: seq<Word>, next: seq<Word>, g: nat, key: Key) {
    && |data| == |next|
    && forall w: nat, j :: 2 * w + 1 < |data| ==>
         GenAt(next, w, j) == if Owns(f, m, tweak, |data|, key, w, j) then g else GenAt(data, w, j)
  }

  lemma WrittenMore(f: Hasher, n: nat, tweak: nat, data: seq<Word>, middle: seq<Word>, next: seq<Word>, g: nat,
                    key: Key)
    requires |data| > 0 && |data| % 2 == 0 && Written(f, n, tweak, data, middle, g, key)
    requires var h := Hashed(f, n, tweak, key); Marked(middle, next, PairOf(h, |data|), LaneOf(h), g)
    ensures Written(f, n + 1, tweak, data, next, g, key)
  {
    hide GenAt, PairOf, LaneOf, Hashed, IsPosition;
    var h := Hashed(f, n, tweak, key);
    forall w: nat, j | 2 * w + 1 < |data|
      ensures GenAt(next, w, j) == if Owns(f, n + 1, tweak, |data|, key, w, j) then g else GenAt(data, w, j)
    {
      PositionIs(f, n, tweak, |data|, key, w, j);
      OwnsMore(f, n, tweak, |data|, key, w, j);
    }
  }

  lemma OwnsMore(f: Hasher, n: nat, tweak: nat, size: nat, key: Key, w: nat, j: bv6)
    ensures Owns(f, n + 1, tweak, size, key, w, j) <==>
            Owns(f, n, tweak, size, key, w, j) || IsPosition(f, n, tweak, size, key, w, j)
  {
    hide IsPosition;
  }

  lemma SourcedWiped(f: Hasher, m: nat, tweak: nat, data: seq<Word>, next: seq<Word>, g: nat, log: seq<Key>,
                     perGeneration: nat)
    requires 1 <= g <= 3 && Wiped(data, next, g % 3 + 1)
    requires Sourced(f, m, tweak, data, g, log, perGeneration, perGeneration)
    ensures Sourced(f, m, tweak, next, g % 3 + 1, log, 0, perGeneration)
  {
    hide GenAt, Recent, Age, Reach;
    forall w: nat, j | 2 * w + 1 < |next| && GenAt(next, w, j) != 0
      ensures Recent(f, m, tweak, |next|, log, Reach(Age(GenAt(next, w, j), g % 3 + 1), 0, perGeneration), w, j)
    {
      assert GenAt(next, w, j) == GenAt(data, w, j);
      ReachOlder(GenAt(data, w, j), g, perGeneration);
    }
  }

  lemma ReachOlder(h: nat, g: nat, perGeneration: nat)
    requires 1 <= g <= 3 && 1 <= h <= 3 && h != g % 3 + 1
    ensures Reach(Age(h, g % 3 + 1), 0, perGeneration) == Reach(Age(h, g), perGeneration, perGeneration)
  {
    assert g == 1 || g == 2 || g == 3;
    assert h == 1 || h == 2 || h == 3;
  }

  lemma SourcedWritten(f: Hasher, m: nat, tweak: nat, data: seq<Word>, next: seq<Word>, g: nat, log: seq<Key>, key: Key,
                       entries: nat, perGeneration: nat)
    requires 1 <= g <= 3 && Written(f, m, tweak, data, next, g, key)
    requires Sourced(f, m, tweak, data, g, log, entries, perGeneration)
    ensures Sourced(f, m, tweak, next, g, log + [key], entries + 1, perGeneration)
  {
    hide GenAt, Recent, Owns;
    forall w: nat, j | 2 * w + 1 < |next| && GenAt(next, w, j) != 0
      ensures Recent(f, m, tweak, |next|, log + [key],
                     Reach(Age(GenAt(next, w, j), g), entries + 1, perGeneration), w, j)
    {
      if Owns(f, m, tweak, |data|, key, w, j) {
        RecentLast(f, m, tweak, |data|, log, key, entries, w, j);
      } else {
        RecentMore(f, m, tweak, |data|, log, key, Reach(Age(GenAt(data, w, j), g), entries, perGeneration), w, j);
      }
    }
  }

  lemma RecentLast(f: Hasher, m: nat, tweak: nat, size: nat, log: seq<Key>, key: Key, count: nat, w: nat, j: bv6)
    requires Owns(f, m, tweak, size, key, w, j)
    ensures Recent(f, m, tweak, size, log + [key], count + 1, w, j)
  {
    hide Owns;
    assert (log + [key])[|log|] == key;
  }

  lemma RecentMore(f: Hasher, m: nat, tweak: nat, size: nat, log: seq<Key>, key: Key, count: nat, w: nat, j: bv6)
    requires Recent(f, m, tweak, size, log, count, w, j)
    ensures Recent(f, m, tweak, size, log + [key], count + 1, w, j)
  {
    hide Owns;
    var i :| 0 <= i < |log| && |log| - count <= i && Owns(f, m, tweak, size, log[i], w, j);
    assert (log + [key])[i] == log[i];
  }

  /** A position of a key in the span is set. */
  lemma RecentIsSet(f: Hasher, m: nat, tweak: nat, data: seq<Word>, current: nat, log: seq<Key>, count: nat, age: nat,
                    w: nat, j: bv6)
    requires |data| > 0 && |data| % 2 == 0 && AllKept(f, m, tweak, data, current, log, count, age)
    requires Recent(f, m, tweak, |data|, log, count, w, j)
    ensures 2 * w + 1 < |data| && GenAt(data, w, j) != 0
  {
    hide IsPosition, GenAt, PairOf, LaneOf, Hashed;
    var i :| 0 <= i < |log| && |log| - count <= i && Owns(f, m, tweak, |data|, log[i], w, j);
    var n :| 0 <= n < m && IsPosition(f, n, tweak, |data|, log[i], w, j);
    PositionIs(f, n, tweak, |data|, log[i], w, j);
    assert Kept(f, m, tweak, data, current, log[i], age);
  }

  /** A position that is set is one of a key in the span. */
  lemma SetIsRecent(f: Hasher, m: nat, tweak: nat, data: seq<Word>, current: nat, log: seq<Key>, entries: nat,
                    perGeneration: nat, w: nat, j: bv6)
    requires Sourced(f, m, tweak, data, current, log, entries, perGeneration)
    requires 2 * w + 1 < |data| && GenAt(data, w, j) != 0
    ensures Recent(f, m, tweak, |data|, log, entries + 2 * perGeneration, w, j)
  {
    hide GenAt, Owns;
  }

  /** Every position of the key was last set at most `age` generations ago. */
  ghost predicate Kept(f: Hasher, nHashFuncs: nat, tweak: nat, data: seq<Word>, current: nat, key: Key, age: nat)
    requires |data| > 0 && |data| % 2 == 0
  {
    forall n :: 0 <= n < nHashFuncs ==>
      var h := Hashed(f, n, tweak, key);
      var g := GenAt(data, PairOf(h, |data|), LaneOf(h));
      g != 0 && Age(g, current) <= age
  }

  /** The same holds of the last `count` keys of a list. */
  ghost predicate AllKept(f: Hasher, nHashFuncs: nat, tweak: nat, data: seq<Word>, current: nat, log: seq<Key>,
                          count: nat, age: nat)
    requires |data| > 0 && |data| % 2 == 0
  {
    forall i :: 0 <= i < |log| && |log| - count <= i ==> Kept(f, nHashFuncs, tweak, data, current, log[i], age)
  }

  /** After a wipe, everything is one generation older, and nothing younger than two was lost. */
  lemma KeptOlder(f: Hasher, nHashFuncs: nat, tweak: nat, data: seq<Word>, next: seq<Word>, g: nat, log: seq<Key>,
                  count: nat, age: nat)
    requires |data| == |next| > 0 && |data| % 2 == 0 && 1 <= g <= 3 && age <= 1
    requires forall w: nat, j :: 2 * w + 1 < |data| ==>
      GenAt(next, w, j) == if GenAt(data, w, j) == (g % 3) + 1 then 0 else GenAt(data, w, j)
    requires AllKept(f, nHashFuncs, tweak, data, g, log, count, age)
    ensures AllKept(f, nHashFuncs, tweak, next, (g % 3) + 1, log, count, age + 1)
  {
    hide GenAt, PairOf, LaneOf, Hashed;
    forall i | 0 <= i < |log| && |log| - count <= i
      ensures Kept(f, nHashFuncs, tweak, next, (g % 3) + 1, log[i], age + 1)
    {
      var key := log[i];
      assert Kept(f, nHashFuncs, tweak, data, g, key, age);
    }
  }

  ghost predicate Marked(data: seq<Word>, next: seq<Word>, w: nat, b: bv6, g: nat) {
    && |data| == |next| && 2 * w + 1 < |data|
    && forall v: nat, j :: 2 * v + 1 < |data| ==> GenAt(next, v, j) == if v == w && j == b then g else GenAt(data, v, j)
  }

  /** Positions keep their generation or have the current one. */
  ghost predicate OnlyAdds(data: seq<Word>, next: seq<Word>, g: nat) {
    && |data| == |next|
    && forall w: nat, j :: 2 * w + 1 < |data| ==> GenAt(next, w, j) == GenAt(data, w, j) || GenAt(next, w, j) == g
  }

  lemma MarkedAdds(before: seq<Word>, data: seq<Word>, next: seq<Word>, w: nat, b: bv6, g: nat)
    requires OnlyAdds(before, data, g) && Marked(data, next, w, b, g)
    ensures OnlyAdds(before, next, g)
  {
    hide GenAt;
  }

  lemma NothingMarked(f: Hasher, tweak: nat, data: seq<Word>, g: nat, key: Key)
    requires |data| > 0 && |data| % 2 == 0
    ensures OnlyAdds(data, data, g) && Kept(f, 0, tweak, data, g, key, 0) && Written(f, 0, tweak, data, data, g, key)
  {
  }

  lemma KeptMore(f: Hasher, n: nat, tweak: nat, data: seq<Word>, next: seq<Word>, g: nat, key: Key)
    requires |data| > 0 && |data| % 2 == 0 && 1 <= g <= 3 && Kept(f, n, tweak, data, g, key, 0)
    requires var h := Hashed(f, n, tweak, key); Marked(data, next, PairOf(h, |data|), LaneOf(h), g)
    ensures Kept(f, n + 1, tweak, next, g, key, 0)
  {
    hide GenAt, PairOf, LaneOf, Hashed;
  }

  /** Writing the current generation takes nothing away. */
  lemma KeptWritten(f: Hasher, nHashFuncs: nat, tweak: nat, data: seq<Word>, next: seq<Word>, g: nat, log: seq<Key>,
                    key: Key, count: nat, age: nat)
    requires |data| == |next| > 0 && |data| % 2 == 0 && 1 <= g <= 3
    requires OnlyAdds(data, next, g)
    requires AllKept(f, nHashFuncs, tweak, data, g, log, count, age)
    requires Kept(f, nHashFuncs, tweak, next, g, key, 0)
    ensures AllKept(f, nHashFuncs, tweak, next, g, log + [key], count + 1, age)
  {
    var all := log + [key];
    forall i | 0 <= i < |all| && |all| - (count + 1) <= i
      ensures Kept(f, nHashFuncs, tweak, next, g, all[i], age)
    {
      if i < |log| { assert Kept(f, nHashFuncs, tweak, data, g, log[i], age); }
    }
  }

  class RollingBloomFilter {
    const hasher: Hasher
    const nHashFuncs: nat
    const nEntriesPerGeneration: nat
    const data: array<Word>
    var nEntriesThisGeneration: nat
    var nGeneration: nat
    var nTweak: nat
    ghost var log: seq<Key>

    ghost predicate Shaped()
      reads this
    {
      data.Length > 0 && data.Length % 2 == 0 && 1 <= nGeneration <= 3
    }

    ghost predicate Remembers(count: nat, age: nat)
      requires Shaped()
      reads this, data
    {
      AllKept(hasher, nHashFuncs, nTweak, data[..], nGeneration, log, count, age)
    }

    ghost predicate Valid()
      reads this, data
    {
      && Shaped()
      && Remembers(nEntriesThisGeneration, 0)
      && Remembers(nEntriesThisGeneration + nEntriesPerGeneration, 1)
      && Remembers(nEntriesThisGeneration + 2 * nEntriesPerGeneration, 2)
      && Sourced(hasher, nHashFuncs, nTweak, data[..], nGeneration, log, nEntriesThisGeneration, nEntriesPerGeneration)
    }

    constructor (hasher: Hasher, nElements: nat, nHashFuncs: nat, nFilterBits: nat, random: nat)
      requires nFilterBits > 0
      ensures Valid() && fresh(data) && log == []
      ensures nElements <= 2 * nEntriesPerGeneration && nEntriesPerGeneration == (nElements + 1) / 2
      ensures this.hasher == hasher && this.nHashFuncs == nHashFuncs && nTweak == random
      ensures 64 * (data.Length / 2) >= nFilterBits > 64 * (data.Length / 2 - 1) && data.Length % 2 == 0
    {
      this.hasher, this.nHashFuncs := hasher, nHashFuncs;
      nEntriesPerGeneration := (nElements + 1) / 2;
      data := new Word[(nFilterBits + 63) / 64 * 2];
      new;
      Reset(random);
    }

    method Reset(random: nat)
      requires data.Length > 0 && data.Length % 2 == 0
      modifies this, data
      ensures Valid() && log == [] && nEntriesThisGeneration == 0 && nGeneration == 1 && nTweak == random
      ensures forall i :: 0 <= i < data.Length ==> data[i] == 0
    {
      nTweak := random;
      nEntriesThisGeneration := 0;
      nGeneration := 1;
      log := [];
      for i := 0 to data.Length
        invariant nTweak == random && nEntriesThisGeneration == 0 && nGeneration == 1 && log == []
        invariant forall k :: 0 <= k < i ==> data[k] == 0
      {
        data[i] := 0;
      }
      NothingSet(data[..]);
    }

    /** The loop of Insert that wipes what carries the number of the new generation. */
    method Wipe()
      requires Shaped()
      modifies data
      ensures Wiped(old(data[..]), data[..], nGeneration)
    {
      hide GenAt, And, WipeMask, Low, High;
      ghost var before := data[..];
      var p := 0;
      while p < data.Length
        invariant 0 <= p <= data.Length && p % 2 == 0
        invariant forall i :: p <= i < data.Length ==> data[i] == before[i]
        invariant forall w: nat, j :: 2 * w + 1 < p ==>
          GenAt(data[..], w, j) == if GenAt(before, w, j) == nGeneration then 0 else GenAt(before, w, j)
      {
        ghost var middle := data[..];
        var p1, p2 := data[p], data[p + 1];
        var mask := WipeMask(p1, p2, Low(nGeneration), High(nGeneration));
        data[p] := And(p1, mask);
        data[p + 1] := And(p2, mask);
        forall w: nat, j | 2 * w + 1 < p + 2
          ensures GenAt(data[..], w, j) == if GenAt(before, w, j) == nGeneration then 0 else GenAt(before, w, j)
        {
          if w == p / 2 {
            WipedAt(before, data[..], w, nGeneration, j);
          } else {
            GenSame(middle, data[..], w, j);
          }
        }
        p := p + 2;
      }
    }

    method StartGeneration()
      requires Valid() && nEntriesThisGeneration == nEntriesPerGeneration
      modifies this`nEntriesThisGeneration, this`nGeneration, data
      ensures Valid() && nEntriesThisGeneration == 0 && nGeneration == old(nGeneration) % 3 + 1
      ensures Wiped(old(data[..]), data[..], nGeneration)
    {
      hide AllKept, GenAt, Sourced;
      ghost var before, g, count := data[..], nGeneration, nEntriesPerGeneration;
      nEntriesThisGeneration := 0;
      nGeneration := nGeneration + 1;
      if nGeneration == 4 { nGeneration := 1; }
      assert nGeneration == g % 3 + 1;
      Wipe();
      KeptOlder(hasher, nHashFuncs, nTweak, before, data[..], g, log, count, 0);
      KeptOlder(hasher, nHashFuncs, nTweak, before, data[..], g, log, 2 * count, 1);
      KeptNone(hasher, nHashFuncs, nTweak, data[..], nGeneration, log);
      SourcedWiped(hasher, nHashFuncs, nTweak, before, data[..], g, log, count);
    }

    /** Writes the current generation at one position. */
    method Mark(w: nat, b: bv6)
      requires Shaped() && 2 * w + 1 < data.Length
      modifies data
      ensures Marked(old(data[..]), data[..], w, b, nGeneration)
    {
      hide GenAt, Put, Low, High;
      ghost var middle := data[..];
      data[2 * w] := Put(data[2 * w], b, Low(nGeneration));
      data[2 * w + 1] := Put(data[2 * w + 1], b, High(nGeneration));
      forall v: nat, j | 2 * v + 1 < data.Length
        ensures GenAt(data[..], v, j) == if v == w && j == b then nGeneration else GenAt(middle, v, j)
      {
        if v == w { WrittenAt(middle, data[..], w, b, nGeneration, j); } else { GenSame(middle, data[..], v, j); }
      }
    }

    method Insert(key: Key)
      requires Valid()
      modifies this, data
      ensures Valid() && log == old(log) + [key] && nTweak == old(nTweak)
      ensures nEntriesThisGeneration ==
        (if old(nEntriesThisGeneration) == nEntriesPerGeneration then 0 else old(nEntriesThisGeneration)) + 1
      ensures nGeneration ==
        if old(nEntriesThisGeneration) == nEntriesPerGeneration then old(nGeneration) % 3 + 1 else old(nGeneration)
      ensures exists kept: seq<Word> ::
        && (if nGeneration == old(nGeneration) then kept == old(data[..]) else Wiped(old(data[..]), kept, nGeneration))
        && Written(hasher, nHashFuncs, nTweak, kept, data[..], nGeneration, key)
    {
      hide AllKept, GenAt, FastMod, PairOf, LaneOf, Hashed, OnlyAdds, Marked, Kept, Sourced, Wiped, Written;
      if nEntriesThisGeneration == nEntriesPerGeneration { StartGeneration(); }
      ghost var before, g, count := data[..], nGeneration, nEntriesThisGeneration;
      nEntriesThisGeneration := nEntriesThisGeneration + 1;
      NothingMarked(hasher, nTweak, before, g, key);
      for n := 0 to nHashFuncs
        invariant nGeneration == g && nEntriesThisGeneration == count + 1 && log == old(log) && nTweak == old(nTweak)
        invariant OnlyAdds(before, data[..], g) && Kept(hasher, n, nTweak, data[..], g, key, 0)
        invariant Written(hasher, n, nTweak, before, data[..], g, key)
      {
        ghost var middle := data[..];
        var h := Hashed(hasher, n, nTweak, key);
        var b, w := LaneOf(h), PairOf(h, data.Length);
        Mark(w, b);
        MarkedAdds(before, middle, data[..], w, b, g);
        KeptMore(hasher, n, nTweak, middle, data[..], g, key);
        WrittenMore(hasher, n, nTweak, before, middle, data[..], g, key);
      }
      log := log + [key];
      KeptWritten(hasher, nHashFuncs, nTweak, before, data[..], g, old(log), key, count, 0);
      KeptWritten(hasher, nHashFuncs, nTweak, before, data[..], g, old(log), key, count + nEntriesPerGeneration, 1);
      KeptWritten(hasher, nHashFuncs, nTweak, before, data[..], g, old(log), key, count + 2 * nEntriesPerGeneration, 2);
      SourcedWritten(hasher, nHashFuncs, nTweak, before, data[..], g, old(log), key, count, nEntriesPerGeneration);
    }

    /** How many of the last keys are remembered for certain. */
    ghost function Span(): nat
      reads this
    {
      nEntriesThisGeneration + 2 * nEntriesPerGeneration
    }

    /** True exactly when every position of the key is one of a key of this generation or the two before it:
        so true for those keys. */
    method Contains(key: Key) returns (found: bool)
      requires Valid()
      ensures found <==> forall n, w: nat, j ::
        0 <= n < nHashFuncs && IsPosition(hasher, n, nTweak, data.Length, key, w, j) ==>
          Recent(hasher, nHashFuncs, nTweak, data.Length, log, Span(), w, j)
      ensures !found ==> forall i :: 0 <= i < |log| && |log| - Span() <= i ==> log[i] != key
    {
      hide Or, Lane, FastMod, PairOf, LaneOf, Hashed, GenAt, Sourced, Recent, IsPosition;
      found := true;
      for n := 0 to nHashFuncs
        invariant Valid() && found
        invariant forall m, w: nat, j :: 0 <= m < n && IsPosition(hasher, m, nTweak, data.Length, key, w, j) ==>
          Recent(hasher, nHashFuncs, nTweak, data.Length, log, Span(), w, j)
      {
        var h := Hashed(hasher, n, nTweak, key);
        var b, w := LaneOf(h), PairOf(h, data.Length);
        SetInEither(data[..], w, b);
        forall v: nat, j ensures IsPosition(hasher, n, nTweak, data.Length, key, v, j) <==> v == w && j == b {
          PositionIs(hasher, n, nTweak, data.Length, key, v, j);
        }
        if !Lane(Or(data[2 * w], data[2 * w + 1]), b) {
          NotRecent(w, b);
          Forgotten(key, n, w, b);
          return false;
        }
        SetIsRecent(hasher, nHashFuncs, nTweak, data[..], nGeneration, log, nEntriesThisGeneration,
                    nEntriesPerGeneration, w, b);
      }
    }

    lemma NotRecent(w: nat, j: bv6)
      requires Valid() && 2 * w + 1 < data.Length && GenAt(data[..], w, j) == 0
      ensures !Recent(hasher, nHashFuncs, nTweak, data.Length, log, Span(), w, j)
    {
      hide GenAt, AllKept, Sourced, Recent;
      if Recent(hasher, nHashFuncs, nTweak, data.Length, log, Span(), w, j) {
        RecentIsSet(hasher, nHashFuncs, nTweak, data[..], nGeneration, log, Span(), 2, w, j);
      }
    }

    lemma Forgotten(key: Key, n: nat, w: nat, j: bv6)
      requires n < nHashFuncs && IsPosition(hasher, n, nTweak, data.Length, key, w, j)
      requires !Recent(hasher, nHashFuncs, nTweak, data.Length, log, Span(), w, j)
      ensures forall i :: 0 <= i < |log| && |log| - Span() <= i ==> log[i] != key
    {
      hide IsPosition;
      forall i | 0 <= i < |log| && |log| - Span() <= i ensures log[i] != key {
        assert !Owns(hasher, nHashFuncs, nTweak, data.Length, log[i], w, j);
      }
    }
  }

  /** A position is set when either word has its lane set. */
  lemma SetInEither(data: seq<Word>, w: nat, j: bv6)
    requires 2 * w + 1 < |data|
    ensures Lane(Or(data[2 * w], data[2 * w + 1]), j) <==> GenAt(data, w, j) != 0
  {
    hide Or, Lane;
    LaneOr(data[2 * w], data[2 * w + 1], j);
  }

  lemma NothingSet(data: seq<Word>)
    requires forall i :: 0 <= i < |data| ==> data[i] == 0
    ensures forall w: nat, j :: 2 * w + 1 < |data| ==> GenAt(data, w, j) == 0
  {
    forall w: nat, j | 2 * w + 1 < |data| ensures GenAt(data, w, j) == 0 { NoLane(j); }
  }

  lemma NoLane(j: bv6)
    ensures !Lane(0, j)
  {
  }

  lemma GenSame(data: seq<Word>, next: seq<Word>, w: nat, j: bv6)
    requires 2 * w + 1 < |data| == |next| && data[2 * w] == next[2 * w] && data[2 * w + 1] == next[2 * w + 1]
    ensures GenAt(data, w, j) == GenAt(next, w, j)
  {
  }

  lemma KeptNone(f: Hasher, nHashFuncs: nat, tweak: nat, data: seq<Word>, current: nat, log: seq<Key>)
    requires |data| > 0 && |data| % 2 == 0
    ensures AllKept(f, nHashFuncs, tweak, data, current, log, 0, 0)
  {
  }
}
