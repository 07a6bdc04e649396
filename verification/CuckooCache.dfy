/**
 A set of elements with eight possible slots each.  Erasing only sets a flag, and the
 slot is reused when it is needed; an insertion moves at most a bounded number of
 elements around, and when it runs out of tries it drops the one in its hands.
 */
module CuckooCache {
  import opened Arithmetic
  import opened ByteBits

  type Element = nat

  /** What a default-constructed element equals; a new table is full of it. */
  const DEFAULT: Element := 0

  const TWO32: nat := 0x1_0000_0000
  const INVALID: nat := TWO32 - 1

  // ----- flags, eight to a byte

  /** Flag i is bit i modulo eight of byte i over eight. */
  ghost predicate Packed(mem: seq<bv8>, bits: seq<bool>) {
    |mem| == (|bits| + 7) / 8 && forall i :: 0 <= i < |bits| ==> BitAt(mem, i) == bits[i]
  }

  predicate BitAt(mem: seq<bv8>, i: nat)
    requires i / 8 < |mem|
  {
    Bit(mem[i / 8], i % 8)
  }

  lemma BitAtSet(mem: seq<bv8>, s: nat, i: nat)
    requires s / 8 < |mem| && i / 8 < |mem|
    ensures BitAt(mem[s / 8 := mem[s / 8] | Mask(s % 8)], i) == (i == s || BitAt(mem, i))
  {
    hide Mask, Bit;
    if i / 8 == s / 8 { SetBit(mem[s / 8], s % 8, i % 8); }
  }

  lemma BitAtUnset(mem: seq<bv8>, s: nat, i: nat)
    requires s / 8 < |mem| && i / 8 < |mem|
    ensures BitAt(mem[s / 8 := mem[s / 8] & !Mask(s % 8)], i) == (i != s && BitAt(mem, i))
  {
    hide Mask, Bit;
    if i / 8 == s / 8 { UnsetBit(mem[s / 8], s % 8, i % 8); }
  }

  class BitFlags {
    const mem: array<bv8>
    ghost var bits: seq<bool>

    ghost predicate Valid()
      reads this, mem
    {
      Packed(mem[..], bits)
    }

    /** The padded size is of 32 bits; where it wraps, there is no memory. */
    constructor (size: nat)
      requires size < TWO32
      ensures fresh(mem) && |bits| == size && forall i :: 0 <= i < size ==> bits[i]
      ensures Valid() <==> size <= TWO32 - 8
      ensures size > TWO32 - 8 ==> mem.Length == 0
    {
      mem := new bv8[(size + 7) % TWO32 / 8](i => 0xFF);
      bits := seq(size, i => true);
      new;
      if size <= TWO32 - 8 {
        forall i | 0 <= i < size ensures BitAt(mem[..], i) { AllSet(i % 8); }
      }
    }

    method Set(s: nat)
      requires Valid() && s < |bits|
      modifies this, mem
      ensures Valid() && bits == old(bits)[s := true]
    {
      hide Mask, BitAt;
      ghost var was := mem[..];
      ghost var next, after := was[s / 8 := was[s / 8] | Mask(s % 8)], bits[s := true];
      forall i | 0 <= i < |bits| ensures BitAt(next, i) == after[i] { BitAtSet(was, s, i); }
      mem[s / 8] := mem[s / 8] | Mask(s % 8);
      bits := bits[s := true];
      assert mem[..] == next;
    }

    method Unset(s: nat)
      requires Valid() && s < |bits|
      modifies this, mem
      ensures Valid() && bits == old(bits)[s := false]
    {
      hide Mask, BitAt;
      ghost var was := mem[..];
      ghost var next, after := was[s / 8 := was[s / 8] & !Mask(s % 8)], bits[s := false];
      forall i | 0 <= i < |bits| ensures BitAt(next, i) == after[i] { BitAtUnset(was, s, i); }
      mem[s / 8] := mem[s / 8] & !Mask(s % 8);
      bits := bits[s := false];
      assert mem[..] == next;
    }

    method IsSet(s: nat) returns (b: bool)
      requires Valid() && s < |bits|
      ensures b == bits[s]
    {
      assert BitAt(mem[..], s) == bits[s];
      b := Mask(s % 8) & mem[s / 8] != 0;
    }
  }

  // ----- counting

  ghost function Count(s: seq<bool>): nat {
    if s == [] then 0 else Count(s[..|s| - 1]) + (if s[|s| - 1] then 1 else 0)
  }

  lemma {:induction false} CountUpdate(s: seq<bool>, i: nat, b: bool)
    requires i < |s|
    ensures Count(s[i := b]) == Count(s) - (if s[i] then 1 else 0) + (if b then 1 else 0)
  {
    var n := |s| - 1;
    if i < n {
      CountUpdate(s[..n], i, b);
      assert s[i := b][..n] == s[..n][i := b];
    } else {
      assert s[i := b][..n] == s[..n];
    }
  }

  lemma {:induction false} CountFewer(s: seq<bool>, t: seq<bool>)
    requires |s| == |t| && forall i :: 0 <= i < |s| && s[i] ==> t[i]
    ensures Count(s) <= Count(t)
  {
    if s != [] {
      assert forall i :: 0 <= i < |s| - 1 ==> s[..|s| - 1][i] == s[i] && t[..|t| - 1][i] == t[i];
      CountFewer(s[..|s| - 1], t[..|t| - 1]);
    }
  }

  lemma {:induction false} CountNone(s: seq<bool>)
    requires forall i :: 0 <= i < |s| ==> !s[i]
    ensures Count(s) == 0
  {
    if s != [] { CountNone(s[..|s| - 1]); }
  }

  // ----- the contents of a table

  /** The eight slots of an element: 32-bit hashes scaled to the size of the table. */
  function Loc(hash: (Element, nat) -> nat, size: nat, e: Element, k: nat): (loc: nat)
    requires size > 0
    ensures loc < size
  {
    ScaledBelow(hash(e, k) % TWO32, size);
    (hash(e, k) % TWO32) * size / TWO32
  }

  /** The hash as a fraction, of the size: rounded down. */
  lemma LocScales(hash: (Element, nat) -> nat, size: nat, e: Element, k: nat)
    requires size > 0
    ensures var (h, loc) := (hash(e, k) % TWO32, Loc(hash, size, e, k));
            loc < size && loc * TWO32 <= h * size < (loc + 1) * TWO32
  {
    var h := hash(e, k) % TWO32;
    MulNat(h, size);
    DivMod(h * size, TWO32);
  }

  lemma ScaledBelow(h: nat, size: nat)
    requires h < TWO32 && size > 0
    ensures 0 <= h * size / TWO32 < size
  {
    MulNat(h, size);
    MulStep(h, TWO32, size);
    QuotientBelow(h * size, TWO32, size);
  }

  ghost predicate Home(hash: (Element, nat) -> nat, size: nat, e: Element, loc: nat)
    requires size > 0
  {
    exists k :: 0 <= k < 8 && Loc(hash, size, e, k) == loc
  }

  /** A slot is filled unless it is dead and holds the default element. */
  ghost predicate Placed(hash: (Element, nat) -> nat, table: seq<Element>, dead: seq<bool>)
    requires |table| == |dead| > 0
  {
    forall i :: 0 <= i < |table| && (table[i] != DEFAULT || !dead[i]) ==> Home(hash, |table|, table[i], i)
  }

  /** An element that is in none of its slots is nowhere. */
  lemma NotInTable(hash: (Element, nat) -> nat, table: seq<Element>, dead: seq<bool>, e: Element)
    requires |table| == |dead| > 0 && Placed(hash, table, dead) && e != DEFAULT
    requires forall j :: 0 <= j < 8 ==> table[Loc(hash, |table|, e, j)] != e
    ensures e !in table
  {
    hide Loc;
  }

  ghost predicate Unique(table: seq<Element>) {
    forall i, j :: 0 <= i < j < |table| && table[i] != DEFAULT ==> table[i] != table[j]
  }

  /** The elements that are not up for collection. */
  ghost function Live(table: seq<Element>, dead: seq<bool>): set<Element>
    requires |table| == |dead|
  {
    set i | 0 <= i < |table| && !dead[i] && table[i] != DEFAULT :: table[i]
  }

  ghost predicate KnownIn(table: seq<Element>, dead: seq<bool>, inserted: set<Element>)
    requires |table| == |dead|
  {
    forall i :: 0 <= i < |table| && (table[i] != DEFAULT || !dead[i]) ==> table[i] in inserted
  }

  /** Slots of the youngest epoch that are not up for collection. */
  ghost function Young(recent: seq<bool>, dead: seq<bool>): seq<bool>
    requires |recent| == |dead|
  {
    seq(|recent|, i requires 0 <= i < |recent| => recent[i] && !dead[i])
  }

  /** A slot whose element leaves is given to e: nothing else changes. */
  lemma LiveWrite(table: seq<Element>, dead: seq<bool>, loc: nat, e: Element)
    requires |table| == |dead| && loc < |table| && Unique(table)
    ensures Live(table[loc := e], dead[loc := false])
         == Live(table, dead) - (if dead[loc] then {} else {table[loc]}) + ({e} - {DEFAULT})
  {
    var t, d := table[loc := e], dead[loc := false];
    var was, now := Live(table, dead), Live(t, d);
    var goal := was - (if dead[loc] then {} else {table[loc]}) + ({e} - {DEFAULT});
    forall x | x in now ensures x in goal {
      var i :| 0 <= i < |t| && !d[i] && t[i] != DEFAULT && t[i] == x;
      if i != loc { assert x == table[i] && !dead[i] && x != table[loc]; }
    }
    forall x | x in goal ensures x in now {
      if x == e && e != DEFAULT {
        assert t[loc] == x && !d[loc];
      } else {
        var i :| 0 <= i < |table| && !dead[i] && table[i] != DEFAULT && table[i] == x;
        assert i != loc;
        assert t[i] == x && !d[i];
      }
    }
  }

  lemma UniqueWrite(table: seq<Element>, loc: nat, e: Element)
    requires loc < |table| && Unique(table) && (e == DEFAULT || e !in table)
    ensures Unique(table[loc := e])
    ensures table[loc] == DEFAULT || table[loc] == e || table[loc] !in table[loc := e]
  {
  }

  lemma PlacedWrite(hash: (Element, nat) -> nat, table: seq<Element>, dead: seq<bool>, loc: nat, e: Element)
    requires |table| == |dead| && loc < |table| && Placed(hash, table, dead) && Home(hash, |table|, e, loc)
    ensures Placed(hash, table[loc := e], dead[loc := false])
  {
  }

  lemma YoungWrite(recent: seq<bool>, dead: seq<bool>, loc: nat, b: bool)
    requires |recent| == |dead| && loc < |recent|
    ensures Count(Young(recent[loc := b], dead[loc := false]))
         == Count(Young(recent, dead)) - (if recent[loc] && !dead[loc] then 1 else 0) + (if b then 1 else 0)
  {
    var y := Young(recent, dead);
    assert Young(recent[loc := b], dead[loc := false]) == y[loc := b];
    CountUpdate(y, loc, b);
  }

  lemma NoneYoung(recent: seq<bool>, dead: seq<bool>)
    requires |recent| == |dead| && forall i :: 0 <= i < |recent| ==> !recent[i]
    ensures Count(Young(recent, dead)) == 0
  {
    CountNone(Young(recent, dead));
  }

  /** Everything that is not of the youngest epoch may be collected. */
  ghost function Release(dead: seq<bool>, recent: seq<bool>): seq<bool>
    requires |dead| == |recent|
  {
    seq(|dead|, i requires 0 <= i < |dead| => dead[i] || !recent[i])
  }

  // ----- exchanges

  ghost predicate InRange(trail: seq<nat>, n: nat) { forall i :: 0 <= i < |trail| ==> trail[i] < n }

  /** The table and what is in hand, once x was exchanged with each of these slots in turn. */
  ghost function Exchanged<T>(table: seq<T>, x: T, trail: seq<nat>): (r: (seq<T>, T))
    requires InRange(trail, |table|)
    ensures |r.0| == |table|
  {
    if trail == [] then (table, x)
    else
      var last := trail[|trail| - 1];
      var r := Exchanged(table, x, trail[..|trail| - 1]);
      (r.0[last := r.1], r.0[last])
  }

  /** The element is in one of its eight slots. */
  ghost predicate Sits(hash: (Element, nat) -> nat, table: seq<Element>, e: Element)
    requires |table| > 0
  {
    exists k :: 0 <= k < 8 && table[Loc(hash, |table|, e, k)] == e
  }

  /** None of the eight slots of e may be collected. */
  ghost predicate Stuck(hash: (Element, nat) -> nat, dead: seq<bool>, e: Element)
    requires |dead| > 0
  {
    forall k :: 0 <= k < 8 ==> !dead[Loc(hash, |dead|, e, k)]
  }

  /** The first of the eight slots of e that may be collected. */
  ghost predicate FirstCollected(hash: (Element, nat) -> nat, dead: seq<bool>, e: Element, loc: nat)
    requires |dead| > 0
  {
    exists k :: && 0 <= k < 8 && loc == Loc(hash, |dead|, e, k) && dead[loc]
                && forall j :: 0 <= j < k ==> !dead[Loc(hash, |dead|, e, j)]
  }

  /** The slot of e that comes after slot `last`, in a circle; the second one if `last` is not a slot of e. */
  ghost predicate Follows(hash: (Element, nat) -> nat, size: nat, e: Element, last: nat, loc: nat)
    requires size > 0
  {
    exists k: nat :: FirstIs(hash, size, e, last, k) && loc == Loc(hash, size, e, (k + 1) % 8)
  }

  ghost predicate FirstIs(hash: (Element, nat) -> nat, size: nat, e: Element, last: nat, k: nat)
    requires size > 0
  {
    && k <= 8 && (k < 8 ==> Loc(hash, size, e, k) == last)
    && forall j :: 0 <= j < k ==> Loc(hash, size, e, j) != last
  }

  /** Each exchange is of an element none of whose slots may be collected, with its slot
      after the one that it came from. */
  ghost predicate Path(hash: (Element, nat) -> nat, table: seq<Element>, dead: seq<bool>, e: Element, trail: seq<nat>)
    requires |table| == |dead| > 0
    decreases |trail|
  {
    trail == []
    || (var n := |trail| - 1;
        && InRange(trail, |table|) && Path(hash, table, dead, e, trail[..n])
        && var x := Exchanged(table, e, trail[..n]).1;
        && Stuck(hash, dead, x)
        && Follows(hash, |table|, x, if n == 0 then INVALID else trail[n - 1], trail[n]))
  }

  lemma {:induction false} PathStart(hash: (Element, nat) -> nat, table: seq<Element>, dead: seq<bool>, e: Element,
                                     trail: seq<nat>)
    requires |table| == |dead| > 0 && Path(hash, table, dead, e, trail) && trail != []
    ensures Stuck(hash, dead, e)
    decreases |trail|
  {
    hide Follows, Stuck;
    if |trail| > 1 {
      PathStart(hash, table, dead, e, trail[..|trail| - 1]);
    } else {
      assert trail[..0] == [];
    }
  }

  lemma PathMore(hash: (Element, nat) -> nat, table: seq<Element>, dead: seq<bool>, e: Element, trail: seq<nat>,
                 loc: nat)
    requires |table| == |dead| > 0 && Path(hash, table, dead, e, trail) && InRange(trail, |table|)
    requires Stuck(hash, dead, Exchanged(table, e, trail).1) && loc < |table|
    requires var last := if trail == [] then INVALID else trail[|trail| - 1];
             Follows(hash, |table|, Exchanged(table, e, trail).1, last, loc)
    ensures Path(hash, table, dead, e, trail + [loc])
  {
    hide Follows, Stuck, Exchanged;
    var next := trail + [loc];
    assert next[..|trail|] == trail;
  }

  lemma ExchangedLast<T>(table: seq<T>, x: T, trail: seq<nat>)
    requires trail != [] && InRange(trail, |table|)
    ensures InRange(trail[..|trail| - 1], |table|) && trail[|trail| - 1] < |table|
    ensures var (r, last) := (Exchanged(table, x, trail[..|trail| - 1]), trail[|trail| - 1]);
            Exchanged(table, x, trail) == (r.0[last := r.1], r.0[last])
  {
  }

  lemma ExchangedMore<T>(table: seq<T>, x: T, trail: seq<nat>, loc: nat)
    requires InRange(trail, |table|) && loc < |table|
    ensures InRange(trail + [loc], |table|)
    ensures var r := Exchanged(table, x, trail);
            Exchanged(table, x, trail + [loc]) == (r.0[loc := r.1], r.0[loc])
  {
    hide Exchanged;
    var next := trail + [loc];
    assert next[..|next| - 1] == trail;
    ExchangedLast(table, x, next);
  }

  /** Element and epoch in hand are written to the slot, which is protected. */
  ghost predicate Stored(t: (seq<Element>, Element), r: (seq<bool>, bool), dead: seq<bool>, loc: nat,
                         tableNow: seq<Element>, recentNow: seq<bool>, deadNow: seq<bool>)
    requires |t.0| == |r.0| == |dead| && loc < |dead|
  {
    tableNow == t.0[loc := t.1] && recentNow == r.0[loc := r.1] && deadNow == dead[loc := false]
  }

  /** How an insertion ends.  After fewer exchanges than the limit, what is in hand goes into the first of its
      slots that may be collected; at the limit it is lost. */
  ghost predicate Settled(hash: (Element, nat) -> nat, limit: nat, table: seq<Element>, recent: seq<bool>,
                          dead: seq<bool>, e: Element, trail: seq<nat>, lost: Element, tableNow: seq<Element>,
                          recentNow: seq<bool>, deadNow: seq<bool>)
    requires |table| == |recent| == |dead| > 0
  {
    && Path(hash, table, dead, e, trail) && InRange(trail, |table|) && |trail| <= limit
    && var (t, r) := (Exchanged(table, e, trail), Exchanged(recent, true, trail));
    if |trail| < limit
    then
      lost == DEFAULT && exists loc: nat :: && loc < |table| && FirstCollected(hash, dead, t.1, loc)
                                            && Stored(t, r, dead, loc, tableNow, recentNow, deadNow)
    else lost == t.1 && tableNow == t.0 && recentNow == r.0 && deadNow == dead
  }

  /** The exchanges so far led to this table and these epochs, with x and its epoch in hand. */
  ghost predicate Trailed(hash: (Element, nat) -> nat, table: seq<Element>, recent: seq<bool>, dead: seq<bool>,
                          e: Element, trail: seq<nat>, t: (seq<Element>, Element), r: (seq<bool>, bool), last: nat)
    requires |table| == |recent| == |dead| > 0
  {
    && Path(hash, table, dead, e, trail) && InRange(trail, |table|)
    && Exchanged(table, e, trail) == t && Exchanged(recent, true, trail) == r
    && last == if trail == [] then INVALID else trail[|trail| - 1]
  }

  lemma TrailStart(hash: (Element, nat) -> nat, table: seq<Element>, recent: seq<bool>, dead: seq<bool>, e: Element)
    requires |table| == |recent| == |dead| > 0
    ensures Trailed(hash, table, recent, dead, e, [], (table, e), (recent, true), INVALID)
  {
  }

  lemma TrailMore(hash: (Element, nat) -> nat, table: seq<Element>, recent: seq<bool>, dead: seq<bool>, e: Element,
                  trail: seq<nat>, t: (seq<Element>, Element), r: (seq<bool>, bool), last: nat, loc: nat)
    requires |table| == |recent| == |dead| > 0 && Trailed(hash, table, recent, dead, e, trail, t, r, last)
    requires Stuck(hash, dead, t.1) && loc < |table| && Follows(hash, |table|, t.1, last, loc)
    ensures |t.0| == |r.0| == |table|
    ensures Trailed(hash, table, recent, dead, e, trail + [loc], (t.0[loc := t.1], t.0[loc]),
                    (r.0[loc := r.1], r.0[loc]), loc)
  {
    hide Path, Exchanged, Stuck, Follows;
    PathMore(hash, table, dead, e, trail, loc);
    ExchangedMore(table, e, trail, loc);
    ExchangedMore(recent, true, trail, loc);
  }

  lemma TrailStored(hash: (Element, nat) -> nat, limit: nat, table: seq<Element>, recent: seq<bool>, dead: seq<bool>,
                    e: Element, trail: seq<nat>, t: (seq<Element>, Element), r: (seq<bool>, bool), last: nat, loc: nat)
    requires |table| == |recent| == |dead| > 0 && Trailed(hash, table, recent, dead, e, trail, t, r, last)
    requires |trail| < limit && loc < |table| && FirstCollected(hash, dead, t.1, loc)
    ensures |t.0| == |r.0| == |table|
    ensures Settled(hash, limit, table, recent, dead, e, trail, DEFAULT, t.0[loc := t.1], r.0[loc := r.1],
                    dead[loc := false])
  {
    hide Path, Exchanged, FirstCollected, Settled;
    assert Stored(t, r, dead, loc, t.0[loc := t.1], r.0[loc := r.1], dead[loc := false]);
    StoredSettles(hash, limit, table, recent, dead, e, trail, loc, t.0[loc := t.1], r.0[loc := r.1],
                  dead[loc := false]);
  }

  lemma StoredSettles(hash: (Element, nat) -> nat, limit: nat, table: seq<Element>, recent: seq<bool>, dead: seq<bool>,
                      e: Element, trail: seq<nat>, loc: nat, tableNow: seq<Element>, recentNow: seq<bool>,
                      deadNow: seq<bool>)
    requires |table| == |recent| == |dead| > 0 && loc < |table|
    requires Path(hash, table, dead, e, trail) && InRange(trail, |table|) && |trail| < limit
    requires var (t, r) := (Exchanged(table, e, trail), Exchanged(recent, true, trail));
             FirstCollected(hash, dead, t.1, loc) && Stored(t, r, dead, loc, tableNow, recentNow, deadNow)
    ensures Settled(hash, limit, table, recent, dead, e, trail, DEFAULT, tableNow, recentNow, deadNow)
  {
    hide Path, Exchanged, FirstCollected, Stored;
  }

  lemma TrailLost(hash: (Element, nat) -> nat, limit: nat, table: seq<Element>, recent: seq<bool>, dead: seq<bool>,
                  e: Element, trail: seq<nat>, t: (seq<Element>, Element), r: (seq<bool>, bool), last: nat)
    requires |table| == |recent| == |dead| > 0 && Trailed(hash, table, recent, dead, e, trail, t, r, last)
    requires |trail| == limit
    ensures Settled(hash, limit, table, recent, dead, e, trail, t.1, t.0, r.0, dead)
  {
    hide Path, Exchanged;
  }

  /** What is live now is what was, with `element`, but for e in hand. */
  ghost predicate Carried(was: set<Element>, element: Element, live: set<Element>, e: Element) {
    (e == DEFAULT || e in was + {element}) && live == was + {element} - {DEFAULT, e}
  }

  lemma CarriedSwap(was: set<Element>, element: Element, live: set<Element>, e: Element, evicted: Element)
    requires Carried(was, element, live, e) && (evicted == DEFAULT || evicted in live)
    ensures Carried(was, element, live - {evicted} + ({e} - {DEFAULT}), evicted)
  {
  }

  lemma CarriedPut(was: set<Element>, element: Element, live: set<Element>, e: Element)
    requires Carried(was, element, live, e)
    ensures forall x :: x in live - {} + ({e} - {DEFAULT}) <==> x in was + {element} - {DEFAULT, DEFAULT}
  {
  }

  lemma CarriedLost(was: set<Element>, element: Element, live: set<Element>, e: Element)
    requires Carried(was, element, live, e)
    ensures (e == DEFAULT || e in was + {element}) && live == was + {element} - {DEFAULT, e}
  {
  }

  // ----- the cache

  class Cache {
    const hash: (Element, nat) -> nat
    const size: nat
    const epochSize: nat
    const depthLimit: nat
    const table: array<Element>
    const epochFlags: array<bool>
    const flags: BitFlags
    var counter: nat
    ghost var inserted: set<Element>

    /** The most elements the youngest epoch can come to hold. */
    ghost function Bound(): nat { epochSize + if epochSize / 16 > 1 then epochSize / 16 else 1 }

    ghost predicate Shaped()
      reads this, table, epochFlags, flags, flags.mem
    {
      && size >= 2 && epochSize >= 1
      && table.Length == size && epochFlags.Length == size && |flags.bits| == size && flags.Valid()
    }

    ghost predicate Consistent()
      requires Shaped()
      reads this, table, epochFlags, flags, flags.mem
    {
      && Placed(hash, table[..], flags.bits) && Unique(table[..])
      && KnownIn(table[..], flags.bits, inserted)
    }

    ghost function YoungCount(): nat
      requires Shaped()
      reads this, table, epochFlags, flags, flags.mem
    {
      Count(Young(epochFlags[..], flags.bits))
    }

    ghost function LiveSet(): set<Element>
      requires Shaped()
      reads this, table, epochFlags, flags, flags.mem
    {
      Live(table[..], flags.bits)
    }

    ghost predicate Valid()
      reads this, table, epochFlags, flags, flags.mem
    {
      Shaped() && Consistent() && YoungCount() + counter <= Bound()
    }

    constructor (hash: (Element, nat) -> nat, newSize: nat, depthLimit: nat)
      requires newSize < TWO32
      ensures fresh(table) && fresh(epochFlags) && fresh(flags) && fresh(flags.mem) && inserted == {}
      ensures Valid() <==> newSize <= TWO32 - 8
      ensures this.hash == hash && this.depthLimit == depthLimit && size == (if newSize < 2 then 2 else newSize)
      ensures 45 * size < TWO32 ==> epochSize == if size < 3 then 1 else 45 * size / 100
      ensures counter == epochSize
      ensures Valid() ==> LiveSet() == {}
    {
      hide Count, Young, Packed;
      this.hash, this.depthLimit := hash, depthLimit;
      var n := if newSize < 2 then 2 else newSize;
      var share := (45 * n) % TWO32 / 100;
      size := n;
      epochSize := if share < 1 then 1 else share;
      counter := if share < 1 then 1 else share;
      table := new Element[n](i => DEFAULT);
      epochFlags := new bool[n](i => false);
      flags := new BitFlags(n);
      inserted := {};
      new;
      if n <= TWO32 - 8 { NoneYoung(epochFlags[..], flags.bits); }
    }

    method AllowErase(n: nat)
      requires Valid() && n < size
      modifies flags, flags.mem
      ensures Valid() && flags.bits == old(flags.bits)[n := true]
    {
      flags.Set(n);
      CountFewer(Young(epochFlags[..], flags.bits), Young(epochFlags[..], old(flags.bits)));
    }

    /** Present in the table, dead or alive, is what is looked for. */
    method Contains(e: Element, erase: bool) returns (found: bool)
      requires Valid()
      modifies flags, flags.mem
      ensures Valid()
      ensures e != DEFAULT ==> found == (e in table[..])
      ensures found && e != DEFAULT ==> e in inserted
      ensures LiveSet() == if erase then old(LiveSet()) - {e} else old(LiveSet())
    {
      var k := 0;
      while k < 8
        invariant 0 <= k <= 8 && Valid() && flags.bits == old(flags.bits)
        invariant forall j :: 0 <= j < k ==> table[Loc(hash, size, e, j)] != e
      {
        var loc := Loc(hash, size, e, k);
        if table[loc] == e {
          if erase {
            AllowErase(loc);
            LiveErase(table[..], old(flags.bits), loc);
          }
          return true;
        }
        k := k + 1;
      }
      found := false;
      assert e !in LiveSet();
    }

    /** The flags once epochs were checked: a full youngest epoch releases the older elements. */
    ghost function KeptFlags(): (kept: seq<bool>)
      requires Shaped()
      reads this, table, epochFlags, flags, flags.mem
      ensures |kept| == size
    {
      if counter == 0 && YoungCount() >= epochSize then Release(flags.bits, epochFlags[..])
      else flags.bits
    }

    /** The epochs likewise: all elements are old once a new epoch starts. */
    ghost function KeptEpochs(): (kept: seq<bool>)
      requires Shaped()
      reads this, table, epochFlags, flags, flags.mem
      ensures |kept| == size
    {
      if counter == 0 && YoungCount() >= epochSize then seq(size, i => false) else epochFlags[..]
    }

    ghost function KeptLive(): set<Element>
      requires Shaped()
      reads this, table, epochFlags, flags, flags.mem
    {
      Live(table[..], KeptFlags())
    }

    method CountYoung() returns (n: nat)
      requires Shaped()
      ensures n == YoungCount()
    {
      n := 0;
      ghost var young := Young(epochFlags[..], flags.bits);
      for i := 0 to size
        invariant Shaped() && n == Count(young[..i]) && young == Young(epochFlags[..], flags.bits)
      {
        assert young[..i + 1][..i] == young[..i];
        var dead := flags.IsSet(i);
        if epochFlags[i] && !dead { n := n + 1; }
      }
      assert young[..size] == young;
    }

    method AgeEpochs()
      requires Shaped()
      modifies epochFlags, flags, flags.mem
      ensures Shaped() && flags.bits == Release(old(flags.bits), old(epochFlags[..]))
      ensures forall i :: 0 <= i < size ==> !epochFlags[i]
    {
      for i := 0 to size
        invariant Shaped()
        invariant forall j :: 0 <= j < i ==> !epochFlags[j] && flags.bits[j] == old(flags.bits[j] || !epochFlags[j])
        invariant forall j :: i <= j < size ==>
                    epochFlags[j] == old(epochFlags[j]) && flags.bits[j] == old(flags.bits[j])
      {
        if epochFlags[i] {
          epochFlags[i] := false;
        } else {
          flags.Set(i);
        }
      }
    }

    /** Leaves room for one more element of the youngest epoch. */
    method EpochCheck()
      requires Valid()
      modifies this`counter, epochFlags, flags, flags.mem
      ensures Shaped() && Consistent() && YoungCount() + 1 + counter <= Bound()
      ensures flags.bits == old(KeptFlags()) && epochFlags[..] == old(KeptEpochs())
      ensures old(counter) > 0 ==> counter == old(counter) - 1
      ensures old(counter) == 0 ==>
                var young := old(YoungCount());
                if young >= epochSize then counter == epochSize
                else counter >= 1 && counter >= epochSize / 16 && counter >= epochSize - young
                     && counter in {1, epochSize / 16, epochSize - young}
    {
      if counter != 0 {
        counter := counter - 1;
        return;
      }
      var unused := CountYoung();
      if unused >= epochSize {
        AgeEpochs();
        CountNone(Young(epochFlags[..], flags.bits));
        counter := epochSize;
      } else {
        var least := if epochSize / 16 > epochSize - unused then epochSize / 16 else epochSize - unused;
        counter := if least > 1 then least else 1;
      }
    }

    /** A slot of e that may be collected, if there is one. */
    method FindCollected(e: Element) returns (found: bool, loc: nat)
      requires Shaped()
      ensures found ==> loc < size && flags.bits[loc] && Home(hash, size, e, loc)
      ensures if found then FirstCollected(hash, flags.bits, e, loc) else Stuck(hash, flags.bits, e)
    {
      loc := 0;
      for k := 0 to 8
        invariant Shaped() && forall j :: 0 <= j < k ==> !flags.bits[Loc(hash, size, e, j)]
      {
        loc := Loc(hash, size, e, k);
        found := flags.IsSet(loc);
        if found { return; }
      }
      found := false;
    }

    /** The slot after the last one used, among those of e, in a circle; the second one at first. */
    method NextSlot(e: Element, last: nat) returns (loc: nat)
      requires Shaped()
      ensures loc < size && Home(hash, size, e, loc) && Follows(hash, size, e, last, loc)
    {
      var k := 0;
      while k < 8 && Loc(hash, size, e, k) != last
        invariant 0 <= k <= 8 && forall j :: 0 <= j < k ==> Loc(hash, size, e, j) != last
      {
        k := k + 1;
      }
      loc := Loc(hash, size, e, (1 + k) % 8);
      assert FirstIs(hash, size, e, last, k);
    }

    /** Writes e and its epoch into a slot of its own, and protects it. */
    method Put(loc: nat, e: Element, recent: bool)
      requires Shaped() && Consistent() && loc < size && Home(hash, size, e, loc) && e in inserted
      requires e == DEFAULT || e == table[loc] || e !in table[..]
      modifies table, epochFlags, flags, flags.mem
      ensures Shaped() && Consistent()
      ensures table[..] == old(table[..])[loc := e] && flags.bits == old(flags.bits)[loc := false]
      ensures epochFlags[..] == old(epochFlags[..])[loc := recent]
      ensures LiveSet() == old(LiveSet()) - (if old(flags.bits[loc]) then {} else {old(table[loc])}) + ({e} - {DEFAULT})
      ensures YoungCount() == old(YoungCount()) - (if old(epochFlags[loc] && !flags.bits[loc]) then 1 else 0)
                              + (if recent then 1 else 0)
    {
      ghost var t, d, f := table[..], flags.bits, epochFlags[..];
      LiveWrite(t, d, loc, e);
      PlacedWrite(hash, t, d, loc, e);
      YoungWrite(f, d, loc, recent);
      if e == t[loc] { assert t[loc := e] == t; } else { UniqueWrite(t, loc, e); }
      table[loc] := e;
      flags.Unset(loc);
      epochFlags[loc] := recent;
      assert table[..] == t[loc := e] && epochFlags[..] == f[loc := recent];
    }

    /** Exchanges e and its epoch with what a slot holds; the slot was protected and stays so. */
    method Swap(loc: nat, e: Element, recent: bool) returns (evicted: Element, wasRecent: bool)
      requires Shaped() && Consistent() && loc < size && Home(hash, size, e, loc) && e in inserted
      requires (e == DEFAULT || e !in table[..]) && !flags.bits[loc]
      modifies table, epochFlags
      ensures Shaped() && Consistent() && evicted in inserted
      ensures evicted == old(table[loc]) && wasRecent == old(epochFlags[loc]) && table[..] == old(table[..])[loc := e]
      ensures epochFlags[..] == old(epochFlags[..])[loc := recent]
      ensures evicted == DEFAULT || evicted !in table[..]
      ensures LiveSet() == old(LiveSet()) - {evicted} + ({e} - {DEFAULT})
      ensures YoungCount() + (if wasRecent then 1 else 0) == old(YoungCount()) + (if recent then 1 else 0)
    {
      ghost var t, d, f := table[..], flags.bits, epochFlags[..];
      assert d[loc := false] == d;
      LiveWrite(t, d, loc, e);
      PlacedWrite(hash, t, d, loc, e);
      YoungWrite(f, d, loc, recent);
      UniqueWrite(t, loc, e);
      evicted, wasRecent := table[loc], epochFlags[loc];
      assert t[loc] == evicted;
      table[loc] := e;
      epochFlags[loc] := recent;
      assert table[..] == t[loc := e] && epochFlags[..] == f[loc := recent];
    }

    /** Where e already is, if it is anywhere. */
    method FindSlot(e: Element) returns (found: bool, loc: nat)
      requires Shaped() && Consistent()
      ensures found <==> Sits(hash, table[..], e)
      ensures found ==> loc < size && table[loc] == e && Home(hash, size, e, loc)
      ensures !found ==> e == DEFAULT || e !in table[..]
    {
      hide Placed, Unique, KnownIn, Loc;
      loc := 0;
      for k := 0 to 8
        invariant Shaped() && Consistent() && forall j :: 0 <= j < k ==> table[Loc(hash, size, e, j)] != e
      {
        loc := Loc(hash, size, e, k);
        assert table[..][Loc(hash, size, e, k)] == table[loc];
        if table[loc] == e { return true, loc; }
      }
      if e != DEFAULT { NotInTable(hash, table[..], flags.bits, e); }
      found := false;
    }

    lemma LiveSetProper(e: Element)
      requires Shaped()
      ensures e == DEFAULT || e !in table[..] ==> Carried(LiveSet(), e, LiveSet(), e)
    {
      LiveProper(table[..], flags.bits);
    }

    lemma LiveSetAt(loc: nat)
      requires Shaped() && loc < size && !flags.bits[loc]
      ensures table[loc] == DEFAULT || table[loc] in LiveSet()
    {
      LiveAt(table[..], flags.bits, loc);
    }

    /** Moves elements to other slots of theirs until one finds a slot that may be collected. */
    method Displace(element: Element) returns (ghost lost: Element, ghost trail: seq<nat>)
      requires Shaped() && Consistent() && element in inserted && (element == DEFAULT || element !in table[..])
      modifies table, epochFlags, flags, flags.mem
      ensures Shaped() && Consistent()
      ensures Settled(hash, depthLimit, old(table[..]), old(epochFlags[..]), old(flags.bits), element, trail, lost,
                      table[..], epochFlags[..], flags.bits)
      ensures LiveSet() == old(LiveSet()) + {element} - {DEFAULT, lost}
      ensures lost == DEFAULT || lost in old(LiveSet()) + {element}
      ensures YoungCount() <= old(YoungCount()) + 1
    {
      hide Placed, Unique, KnownIn, Home, Live, Young, Count, Consistent, YoungCount, Stuck, Follows, FirstCollected,
           Trailed, Settled, LiveSet, Carried;
      LiveSetProper(element);
      ghost var live := LiveSet();
      var last, recent, e := INVALID, true, element;
      trail := [];
      ghost var (t, r, d) := (table[..], epochFlags[..], flags.bits);
      TrailStart(hash, t, r, d, element);
      for depth := 0 to depthLimit
        invariant Shaped() && Consistent() && e in inserted
        invariant e == DEFAULT || e !in table[..]
        invariant Carried(old(LiveSet()), element, LiveSet(), e)
        invariant YoungCount() + (if recent then 1 else 0) == old(YoungCount()) + 1
        invariant |trail| == depth && flags.bits == d
        invariant Trailed(hash, t, r, d, element, trail, (table[..], e), (epochFlags[..], recent), last)
      {
        ghost var (x, y) := ((table[..], e), (epochFlags[..], recent));
        var found, loc := FindCollected(e);
        if found {
          TrailStored(hash, depthLimit, t, r, d, element, trail, x, y, last, loc);
          CarriedPut(live, element, LiveSet(), e);
          Put(loc, e, recent);
          lost := DEFAULT;
          return;
        }
        loc := NextSlot(e, last);
        TrailMore(hash, t, r, d, element, trail, x, y, last, loc);
        last, trail := loc, trail + [loc];
        NotCollected(hash, flags.bits, e, last);
        LiveSetAt(last);
        CarriedSwap(live, element, LiveSet(), e, table[last]);
        e, recent := Swap(last, e, recent);
      }
      lost := e;
      CarriedLost(live, element, LiveSet(), e);
      TrailLost(hash, depthLimit, t, r, d, element, trail, (table[..], e), (epochFlags[..], recent), last);
    }

    /** Beside what the epoch check releases, at most one element is lost, and it may be e: none if e is in
        the table, or one of its slots may be collected; and otherwise only after as many exchanges as the limit
        allows, none of which met an element with a slot that may be collected. */
    method Insert(e: Element) returns (ghost lost: Element, ghost trail: seq<nat>)
      requires Valid()
      modifies this`counter, this`inserted, table, epochFlags, flags, flags.mem
      ensures Valid() && inserted == old(inserted) + {e}
      ensures LiveSet() == old(KeptLive()) + {e} - {DEFAULT, lost}
      ensures lost == DEFAULT || lost in old(KeptLive()) + {e}
      ensures if Sits(hash, old(table[..]), e) then lost == DEFAULT && trail == [] && table[..] == old(table[..])
              else Settled(hash, depthLimit, old(table[..]), old(KeptEpochs()), old(KeptFlags()), e, trail, lost,
                           table[..], epochFlags[..], flags.bits)
      ensures e != DEFAULT && e in old(table[..]) ==> lost == DEFAULT && e in LiveSet()
      ensures e != DEFAULT && depthLimit > 0 && !Stuck(hash, old(KeptFlags()), e) ==>
                lost == DEFAULT && e in table[..] && e in LiveSet()
      ensures lost != DEFAULT ==> |trail| == depthLimit && Path(hash, old(table[..]), old(KeptFlags()), e, trail)
    {
      hide Placed, Unique, KnownIn, Home, Live, Young, Count, Path, Settled, Stuck, Sits, KeptFlags, KeptEpochs;
      EpochCheck();
      KnownMore(table[..], flags.bits, inserted, e);
      inserted := inserted + {e};
      var found, loc := FindSlot(e);
      LiveProper(table[..], flags.bits);
      if found {
        Put(loc, e, true);
        assert table[..] == old(table[..]);
        lost, trail := DEFAULT, [];
      } else {
        lost, trail := Displace(e);
        SettledOutcome(hash, depthLimit, old(table[..]), old(KeptEpochs()), old(KeptFlags()), e, trail, lost,
                       table[..], epochFlags[..], flags.bits);
      }
      LiveInTable(table[..], flags.bits, e);
    }
  }

  lemma LiveInTable(table: seq<Element>, dead: seq<bool>, e: Element)
    requires |table| == |dead|
    ensures e in Live(table, dead) ==> e in table && e != DEFAULT
  {
  }

  lemma NoExchange<T>(table: seq<T>, x: T)
    ensures Exchanged(table, x, []) == (table, x)
  {
  }

  lemma NotCollected(hash: (Element, nat) -> nat, dead: seq<bool>, e: Element, loc: nat)
    requires |dead| > 0 && Stuck(hash, dead, e) && loc < |dead| && Home(hash, |dead|, e, loc)
    ensures !dead[loc]
  {
  }

  /** An element with a slot that may be collected is stored at once. */
  lemma SettledOutcome(hash: (Element, nat) -> nat, limit: nat, table: seq<Element>, recent: seq<bool>,
                       dead: seq<bool>, e: Element, trail: seq<nat>, lost: Element, tableNow: seq<Element>,
                       recentNow: seq<bool>, deadNow: seq<bool>)
    requires |table| == |recent| == |dead| > 0
    requires Settled(hash, limit, table, recent, dead, e, trail, lost, tableNow, recentNow, deadNow)
    ensures limit > 0 && !Stuck(hash, dead, e) ==> lost == DEFAULT && e in tableNow
    ensures lost != DEFAULT ==> |trail| == limit && Path(hash, table, dead, e, trail)
  {
    hide Path, Exchanged, Stuck;
    if limit > 0 && !Stuck(hash, dead, e) {
      if trail != [] {
        PathStart(hash, table, dead, e, trail);
      } else {
        NoExchange(table, e);
        var loc: nat :| loc < |table| && FirstCollected(hash, dead, e, loc)
          && Stored((table, e), Exchanged(recent, true, []), dead, loc, tableNow, recentNow, deadNow);
        assert tableNow[loc] == e;
      }
    }
  }

  lemma LiveProper(table: seq<Element>, dead: seq<bool>)
    requires |table| == |dead|
    ensures DEFAULT !in Live(table, dead)
    ensures forall e :: e !in table ==> e !in Live(table, dead)
  {
  }

  lemma LiveAt(table: seq<Element>, dead: seq<bool>, loc: nat)
    requires |table| == |dead| && loc < |table| && !dead[loc]
    ensures table[loc] == DEFAULT || table[loc] in Live(table, dead)
  {
  }

  lemma KnownMore(table: seq<Element>, dead: seq<bool>, inserted: set<Element>, e: Element)
    requires |table| == |dead| && KnownIn(table, dead, inserted)
    ensures KnownIn(table, dead, inserted + {e})
  {
  }

  lemma LiveErase(table: seq<Element>, dead: seq<bool>, loc: nat)
    requires |table| == |dead| && loc < |table| && Unique(table)
    ensures Live(table, dead[loc := true]) == Live(table, dead) - {table[loc]}
  {
    var was, now := Live(table, dead), Live(table, dead[loc := true]);
    forall x | x in was && x != table[loc] ensures x in now {
      var i :| 0 <= i < |table| && !dead[i] && table[i] != DEFAULT && table[i] == x;
      assert !dead[loc := true][i];
    }
  }
}
