/**
 Text with a checksum of six symbols over GF(32), as in BIP 173.
 */
module Bech32 {

  import opened Options

  /** Symbols are elements of GF(32); six of them are packed in a word of 30 bits. */
  type Sym = bv5

  type Word = bv32

  const LIMIT: Word := 0x40000000

  // ----- the checksum, one symbol at a time

  function Xor(a: Word, b: Word): Word { a ^ b }

  function Part(c0: Word, bit: Word, g: Word): Word { if Has(c0, bit) then g else 0 }

  function Fold(c0: Word): Word {
    Xor(Xor(Xor(Xor(Part(c0, 1, 0x3b6a57b2), Part(c0, 2, 0x26508e6d)), Part(c0, 4, 0x1ea119fa)),
            Part(c0, 8, 0x3d4233dd)), Part(c0, 16, 0x2a1462b3))
  }

  function Shift(c: Word): Word { (c & 0x1ffffff) << 5 }

  function Top(c: Word): Word { c >> 25 }

  function Wide(v: Sym): Word { v as Word }

  function Step(c: Word, v: Sym): Word {
    Xor(Xor(Shift(c), Wide(v)), Fold(Top(c)))
  }

  function Up(x: Word): Word { x << 5 }

  function Down(x: Word): Word { x >> 5 }

  lemma RawAssoc(a: Word, b: Word, c: Word)
    ensures (a ^ b) ^ c == a ^ (b ^ c)
  {
  }

  lemma XorLeft(a: Word, b: Word, c: Word)
    ensures Xor(Xor(a, b), c) == (a ^ b) ^ c
  {
  }

  lemma XorRight(a: Word, b: Word, c: Word)
    ensures Xor(a, Xor(b, c)) == a ^ (b ^ c)
  {
  }

  lemma Assoc(a: Word, b: Word, c: Word)
    ensures Xor(Xor(a, b), c) == Xor(a, Xor(b, c))
  {
    hide Xor;
    XorLeft(a, b, c);
    XorRight(a, b, c);
    RawAssoc(a, b, c);
  }

  lemma Comm(a: Word, b: Word)
    ensures Xor(a, b) == Xor(b, a)
  {
  }

  lemma Units(a: Word)
    ensures Xor(a, 0) == a && Xor(0, a) == a && Xor(a, a) == 0
  {
  }

  lemma Xor4(a: Word, b: Word, c: Word, d: Word)
    ensures Xor(Xor(a, b), Xor(c, d)) == Xor(Xor(a, c), Xor(b, d))
  {
    hide Xor;
    Assoc(a, b, Xor(c, d));
    Assoc(b, c, d);
    Comm(b, c);
    Assoc(c, b, d);
    Assoc(a, c, Xor(b, d));
  }

  predicate Has(c: Word, bit: Word) { c & bit != 0 }

  lemma HasXor(a: Word, b: Word, bit: Word)
    requires bit == 1 || bit == 2 || bit == 4 || bit == 8 || bit == 16
    ensures Has(a ^ b, bit) == (Has(a, bit) != Has(b, bit))
  {
  }

  lemma PartLinear(a: Word, b: Word, bit: Word, g: Word)
    requires bit == 1 || bit == 2 || bit == 4 || bit == 8 || bit == 16
    ensures Part(Xor(a, b), bit, g) == Xor(Part(a, bit, g), Part(b, bit, g))
  {
    hide Has, Xor;
    XorIs(a, b);
    HasXor(a, b, bit);
    Units(g);
    Units(0);
  }

  lemma XorIs(a: Word, b: Word)
    ensures Xor(a, b) == a ^ b
  {
  }

  lemma FoldLinear(a: Word, b: Word)
    ensures Fold(Xor(a, b)) == Xor(Fold(a), Fold(b))
  {
    hide Xor, Part;
    PartLinear(a, b, 1, 0x3b6a57b2);
    PartLinear(a, b, 2, 0x26508e6d);
    PartLinear(a, b, 4, 0x1ea119fa);
    PartLinear(a, b, 8, 0x3d4233dd);
    PartLinear(a, b, 16, 0x2a1462b3);
    Gather(Part(a, 1, 0x3b6a57b2), Part(b, 1, 0x3b6a57b2), Part(a, 2, 0x26508e6d), Part(b, 2, 0x26508e6d),
      Part(a, 4, 0x1ea119fa), Part(b, 4, 0x1ea119fa), Part(a, 8, 0x3d4233dd), Part(b, 8, 0x3d4233dd),
      Part(a, 16, 0x2a1462b3), Part(b, 16, 0x2a1462b3));
  }

  lemma Gather(a1: Word, b1: Word, a2: Word, b2: Word, a3: Word, b3: Word, a4: Word, b4: Word, a5: Word, b5: Word)
    ensures Xor(Xor(Xor(Xor(Xor(a1, b1), Xor(a2, b2)), Xor(a3, b3)), Xor(a4, b4)), Xor(a5, b5)) ==
            Xor(Xor(Xor(Xor(Xor(a1, a2), a3), a4), a5), Xor(Xor(Xor(Xor(b1, b2), b3), b4), b5))
  {
    hide Xor;
    Xor4(a1, b1, a2, b2);
    Xor4(Xor(a1, a2), Xor(b1, b2), a3, b3);
    Xor4(Xor(Xor(a1, a2), a3), Xor(Xor(b1, b2), b3), a4, b4);
    Xor4(Xor(Xor(Xor(a1, a2), a3), a4), Xor(Xor(Xor(b1, b2), b3), b4), a5, b5);
  }

  lemma ShiftLinear(c: Word, d: Word)
    ensures Shift(Xor(c, d)) == Xor(Shift(c), Shift(d)) && Top(Xor(c, d)) == Xor(Top(c), Top(d))
  {
  }

  lemma WideLinear(v: Sym, w: Sym)
    ensures Wide(v ^ w) == Xor(Wide(v), Wide(w))
  {
  }

  lemma Linear(c: Word, d: Word, v: Sym, w: Sym)
    ensures Step(Xor(c, d), v ^ w) == Xor(Step(c, v), Step(d, w))
  {
    hide Xor, Fold, Shift, Top, Wide;
    ShiftLinear(c, d);
    WideLinear(v, w);
    FoldLinear(Top(c), Top(d));
    Xor4(Shift(c), Shift(d), Wide(v), Wide(w));
    Xor4(Xor(Shift(c), Wide(v)), Xor(Shift(d), Wide(w)), Fold(Top(c)), Fold(Top(d)));
  }

  lemma StepBound(c: Word, v: Sym)
    requires c < LIMIT
    ensures Step(c, v) < LIMIT
  {
  }

  lemma FoldLow(t: Word)
    requires t < 32 && Fold(t) & 31 == 0
    ensures t == 0
  {
  }

  lemma FoldZero()
    ensures Fold(0) == 0
  {
  }

  lemma ShiftZero(e: Word)
    requires e < LIMIT && Shift(e) == 0 && Top(e) == 0
    ensures e == 0
  {
  }

  lemma TopSmall(e: Word)
    requires e < LIMIT
    ensures Top(e) < 32
  {
  }

  lemma LowBits(e: Word, f: Word)
    requires Shift(e) ^ f == 0
    ensures f & 31 == 0 && (f == 0 ==> Shift(e) == 0)
  {
  }

  lemma Kernel(e: Word)
    requires e < LIMIT && Step(e, 0) == 0
    ensures e == 0
  {
    hide Xor, Fold, Shift, Top;
    Units(Shift(e));
    XorIs(Shift(e), Fold(Top(e)));
    LowBits(e, Fold(Top(e)));
    TopSmall(e);
    FoldLow(Top(e));
    FoldZero();
    ShiftZero(e);
  }

  lemma RawXorZero(c: Word, d: Word)
    ensures c ^ d == 0 <==> c == d
  {
  }

  lemma RawXorBound(c: Word, d: Word)
    requires c < LIMIT && d < LIMIT
    ensures c ^ d < LIMIT
  {
  }

  lemma XorZero(c: Word, d: Word)
    ensures Xor(c, d) == 0 <==> c == d
  {
    hide Xor;
    XorIs(c, d);
    RawXorZero(c, d);
  }

  lemma XorBound(c: Word, d: Word)
    requires c < LIMIT && d < LIMIT
    ensures Xor(c, d) < LIMIT
  {
    hide Xor;
    XorIs(c, d);
    RawXorBound(c, d);
  }

  lemma Injective(c: Word, d: Word, v: Sym)
    requires c < LIMIT && d < LIMIT && Step(c, v) == Step(d, v)
    ensures c == d
  {
    hide Xor, Step;
    XorZero(c, d);
    XorBound(c, d);
    XorZero(Step(c, v), Step(d, v));
    Linear(c, d, v, v);
    assert v ^ v == 0;
    Kernel(Xor(c, d));
  }

  lemma SmallShift(d: Word)
    requires d < 0x2000000
    ensures Shift(d) == Up(d) && Top(d) == 0
  {
  }

  lemma SmallStep(d: Word, v: Sym)
    requires d < 0x2000000
    ensures Step(d, v) == Xor(Up(d), Wide(v))
  {
    hide Fold, Xor, Shift, Top, Wide, Up;
    FoldZero();
    SmallShift(d);
    Units(Xor(Up(d), Wide(v)));
  }

  lemma WideZero(v: Sym, w: Sym)
    requires Wide(v ^ w) == 0
    ensures v == w
  {
  }

  lemma StepZero(v: Sym)
    ensures Step(0, v) == Wide(v)
  {
    hide Xor, Wide;
    SmallStep(0, v);
    assert Up(0) == 0;
    Units(Wide(v));
  }

  lemma InjectiveSymbol(c: Word, v: Sym, w: Sym)
    requires Step(c, v) == Step(c, w)
    ensures v == w
  {
    hide Xor, Step, Wide;
    XorZero(Step(c, v), Step(c, w));
    Linear(c, c, v, w);
    Units(c);
    StepZero(v ^ w);
    WideZero(v, w);
  }

  function Low(x: Word): Sym { (x & 31) as Sym }

  function DownBy(m: Word, k: nat): Word { if k == 0 then m else Down(DownBy(m, k - 1)) }

  /** The 5-bit groups of a word of 30 bits, the highest first. */
  function Group(m: Word, i: nat): Sym
    requires i < 6
  {
    Low(DownBy(m, 5 - i))
  }

  function GroupList(m: Word): seq<Sym> {
    [Group(m, 0), Group(m, 1), Group(m, 2), Group(m, 3), Group(m, 4), Group(m, 5)]
  }

  lemma Join(x: Word)
    ensures Xor(Up(Down(x)), Wide(Low(x))) == x
  {
  }

  lemma DownSmall(x: Word)
    requires x < LIMIT
    ensures Down(x) < 0x2000000 && Down(x) < LIMIT
  {
  }

  lemma JoinStep(x: Word)
    requires x < LIMIT
    ensures Step(Down(x), Low(x)) == x
  {
    hide Step, Xor, Wide, Low, Up, Down;
    DownSmall(x);
    SmallStep(Down(x), Low(x));
    Join(x);
  }

  /** Words of k symbols. */
  predicate Fits(d: Word, k: nat) {
    if k == 0 then d == 0 else if k == 1 then d < 0x20 else if k == 2 then d < 0x400 else if k == 3 then d < 0x8000
    else if k == 4 then d < 0x100000 else if k == 5 then d < 0x2000000 else d < LIMIT
  }

  lemma DownFits(d: Word, k: nat)
    requires k < 6 && Fits(d, k + 1)
    ensures Fits(Down(d), k)
  {
  }

  function Mod(c: Word, v: seq<Sym>): Word {
    if v == [] then c else Step(Mod(c, v[..|v| - 1]), v[|v| - 1])
  }

  lemma ModMore(c: Word, v: seq<Sym>, x: Sym)
    ensures Mod(c, v + [x]) == Step(Mod(c, v), x)
  {
    assert (v + [x])[..|v|] == v;
  }

  lemma ModNone(c: Word)
    ensures Mod(c, []) == c
  {
  }

  lemma Mod6(c: Word, a0: Sym, a1: Sym, a2: Sym, a3: Sym, a4: Sym, a5: Sym)
    ensures Mod(c, [a0, a1, a2, a3, a4, a5]) == Step(Step(Step(Step(Step(Step(c, a0), a1), a2), a3), a4), a5)
  {
    hide Mod, Step;
    ModNone(c);
    ModMore(c, [], a0);
    assert [] + [a0] == [a0];
    ModMore(c, [a0], a1);
    assert [a0] + [a1] == [a0, a1];
    ModMore(c, [a0, a1], a2);
    assert [a0, a1] + [a2] == [a0, a1, a2];
    ModMore(c, [a0, a1, a2], a3);
    assert [a0, a1, a2] + [a3] == [a0, a1, a2, a3];
    ModMore(c, [a0, a1, a2, a3], a4);
    assert [a0, a1, a2, a3] + [a4] == [a0, a1, a2, a3, a4];
    ModMore(c, [a0, a1, a2, a3, a4], a5);
    assert [a0, a1, a2, a3, a4] + [a5] == [a0, a1, a2, a3, a4, a5];
  }

  lemma GroupsBack(m: Word)
    requires m < LIMIT
    ensures Mod(0, [Group(m, 0), Group(m, 1), Group(m, 2), Group(m, 3), Group(m, 4), Group(m, 5)]) == m
  {
    hide Step, Low, Mod, Down, Fits, Group, DownBy;
    FitsAll(m);
    DownChain(m);
    var d5 := Down(m);
    var d4 := Down(d5);
    var d3 := Down(d4);
    var d2 := Down(d3);
    var d1 := Down(d2);
    DownFits(m, 5);
    DownFits(d5, 4);
    DownFits(d4, 3);
    DownFits(d3, 2);
    DownFits(d2, 1);
    DownFits(d1, 0);
    FitsNone(Down(d1));
    JoinFits(m, 6);
    JoinFits(d5, 5);
    JoinFits(d4, 4);
    JoinFits(d3, 3);
    JoinFits(d2, 2);
    JoinFits(d1, 1);
    Mod6(0, Group(m, 0), Group(m, 1), Group(m, 2), Group(m, 3), Group(m, 4), Group(m, 5));
  }

  lemma DownChain(m: Word)
    ensures Group(m, 5) == Low(m) && Group(m, 4) == Low(Down(m)) && Group(m, 3) == Low(Down(Down(m)))
    ensures Group(m, 2) == Low(Down(Down(Down(m)))) && Group(m, 1) == Low(Down(Down(Down(Down(m)))))
    ensures Group(m, 0) == Low(Down(Down(Down(Down(Down(m))))))
  {
    hide Low, Down;
    assert DownBy(m, 0) == m;
    assert DownBy(m, 1) == Down(DownBy(m, 0));
    assert DownBy(m, 2) == Down(DownBy(m, 1));
    assert DownBy(m, 3) == Down(DownBy(m, 2));
    assert DownBy(m, 4) == Down(DownBy(m, 3));
    assert DownBy(m, 5) == Down(DownBy(m, 4));
  }

  lemma FitsAll(m: Word)
    ensures Fits(m, 6) <==> m < LIMIT
  {
  }

  lemma FitsNone(d: Word)
    ensures Fits(d, 0) <==> d == 0
  {
  }

  lemma FitsLimit(d: Word, k: nat)
    requires Fits(d, k)
    ensures d < LIMIT && (k <= 5 ==> d < 0x2000000)
  {
  }

  lemma JoinFits(x: Word, k: nat)
    requires Fits(x, k)
    ensures Step(Down(x), Low(x)) == x
  {
    hide Step, Down, Low, Fits;
    FitsLimit(x, k);
    JoinStep(x);
  }

  lemma Split(d: Word, v: Sym)
    requires d < 0x2000000
    ensures Down(Xor(Up(d), Wide(v))) == d && Low(Xor(Up(d), Wide(v))) == v && Xor(Up(d), Wide(v)) < LIMIT
  {
  }

  // ----- six symbols and a word

  lemma StepGrows(d: Word, v: Sym, k: nat)
    requires k < 6 && Fits(d, k)
    ensures Fits(Step(d, v), k + 1)
  {
  }

  lemma StepSplits(d: Word, v: Sym, k: nat)
    requires k < 6 && Fits(d, k)
    ensures Down(Step(d, v)) == d && Low(Step(d, v)) == v && Fits(Step(d, v), k + 1)
  {
    hide Step, Xor, Up, Down, Wide, Low, Fits;
    FitsLimit(d, k);
    SmallStep(d, v);
    Split(d, v);
    StepGrows(d, v, k);
  }

  /** The word of six symbols, starting from nothing, has them as its groups. */
  lemma GroupsOf(a0: Sym, a1: Sym, a2: Sym, a3: Sym, a4: Sym, a5: Sym)
    ensures var m := Mod(0, [a0, a1, a2, a3, a4, a5]);
      && Group(m, 0) == a0 && Group(m, 1) == a1 && Group(m, 2) == a2
      && Group(m, 3) == a3 && Group(m, 4) == a4 && Group(m, 5) == a5
  {
    hide Step, Low, Mod, Down, Group, Fits;
    Mod6(0, a0, a1, a2, a3, a4, a5);
    FitsNone(0);
    var d1 := Step(0, a0);
    var d2 := Step(d1, a1);
    var d3 := Step(d2, a2);
    var d4 := Step(d3, a3);
    var d5 := Step(d4, a4);
    StepSplits(0, a0, 0);
    StepSplits(d1, a1, 1);
    StepSplits(d2, a2, 2);
    StepSplits(d3, a3, 3);
    StepSplits(d4, a4, 4);
    StepSplits(d5, a5, 5);
    DownChain(Step(d5, a5));
  }

  // ----- whole lists

  lemma {:induction false} ModBound(c: Word, v: seq<Sym>)
    requires c < LIMIT
    ensures Mod(c, v) < LIMIT
  {
    hide Step;
    if v != [] {
      ModBound(c, v[..|v| - 1]);
      StepBound(Mod(c, v[..|v| - 1]), v[|v| - 1]);
    }
  }

  lemma {:induction false} ModAppend(c: Word, v: seq<Sym>, w: seq<Sym>)
    ensures Mod(c, v + w) == Mod(Mod(c, v), w)
    decreases |w|
  {
    hide Step;
    if w == [] {
      assert v + w == v;
    } else {
      var n := |w| - 1;
      ModAppend(c, v, w[..n]);
      assert (v + w)[..|v| + n] == v + w[..n];
    }
  }

  function Nil(n: nat): seq<Sym> { seq(n, i => 0) }

  /** The checksum is linear: what the symbols add to what zeros would give. */
  lemma {:induction false} ModLinear(c: Word, v: seq<Sym>)
    ensures Mod(c, v) == Xor(Mod(c, Nil(|v|)), Mod(0, v))
  {
    hide Step, Xor;
    if v == [] {
      Units(c);
    } else {
      var n := |v| - 1;
      ModLinear(c, v[..n]);
      assert Nil(|v|)[..n] == Nil(n);
      Linear(Mod(c, Nil(n)), Mod(0, v[..n]), 0, v[n]);
      assert 0 ^ v[n] == v[n];
    }
  }

  /** Lists that differ in one symbol have different checksums. */
  lemma {:induction false} ModDiffers(c: Word, v: seq<Sym>, i: nat, x: Sym)
    requires c < LIMIT && i < |v| && x != v[i]
    ensures Mod(c, v[i := x]) != Mod(c, v)
    decreases |v|
  {
    hide Step;
    var n := |v| - 1;
    if i == n {
      assert v[i := x][..n] == v[..n];
      if Step(Mod(c, v[..n]), x) == Step(Mod(c, v[..n]), v[n]) { InjectiveSymbol(Mod(c, v[..n]), x, v[n]); }
    } else {
      assert v[i := x][..n] == v[..n][i := x];
      ModDiffers(c, v[..n], i, x);
      ModBound(c, v[..n]);
      ModBound(c, v[..n][i := x]);
      var a, b := Mod(c, v[..n][i := x]), Mod(c, v[..n]);
      if Step(a, v[n]) == Step(b, v[n]) { Injective(a, b, v[n]); }
    }
  }

  lemma {:induction false} ModInjective(c: Word, d: Word, v: seq<Sym>)
    requires c < LIMIT && d < LIMIT && c != d
    ensures Mod(c, v) != Mod(d, v)
  {
    hide Step;
    if v != [] {
      var n := |v| - 1;
      ModInjective(c, d, v[..n]);
      ModBound(c, v[..n]);
      ModBound(d, v[..n]);
      var a, b := Mod(c, v[..n]), Mod(d, v[..n]);
      if Step(a, v[n]) == Step(b, v[n]) { Injective(a, b, v[n]); }
    }
  }

  lemma ZeroStep()
    ensures Step(0, 0) == 0
  {
    hide Step, Xor;
    Linear(0, 0, 0, 0);
    Units(0);
    Units(Step(0, 0));
  }

  lemma {:induction false} ModNil(n: nat)
    ensures Mod(0, Nil(n)) == 0
  {
    hide Step;
    if n > 0 {
      ZeroStep();
      assert Nil(n)[..n - 1] == Nil(n - 1);
      ModNil(n - 1);
    }
  }

  /** Up to six symbols are determined by what they add to a checksum. */
  lemma FewEqual(v: seq<Sym>, w: seq<Sym>)
    requires |v| == |w| <= 6 && Mod(0, v) == Mod(0, w)
    ensures v == w
  {
    hide Mod, Group;
    var pad := Nil(6 - |v|);
    ModNil(6 - |v|);
    ModAppend(0, pad, v);
    ModAppend(0, pad, w);
    var a, b := pad + v, pad + w;
    assert a == [a[0], a[1], a[2], a[3], a[4], a[5]] && b == [b[0], b[1], b[2], b[3], b[4], b[5]];
    GroupsOf(a[0], a[1], a[2], a[3], a[4], a[5]);
    GroupsOf(b[0], b[1], b[2], b[3], b[4], b[5]);
    assert v == a[6 - |v|..] && w == b[6 - |v|..];
  }

  lemma BurstDiffers(c: Word, v: seq<Sym>, w: seq<Sym>)
    requires |v| == |w| <= 6 && v != w
    ensures Mod(c, v) != Mod(c, w)
  {
    hide Mod, Xor;
    if Mod(0, v) == Mod(0, w) { FewEqual(v, w); }
    ModLinear(c, v);
    ModLinear(c, w);
    XorCancel(Mod(c, Nil(|v|)), Mod(0, v), Mod(0, w));
  }

  lemma XorCancel(f: Word, m: Word, n: Word)
    ensures Xor(f, m) == Xor(f, n) <==> m == n
  {
    hide Xor;
    Assoc(f, f, m);
    Assoc(f, f, n);
    Units(f);
    Units(m);
    Units(n);
  }

  // ----- the checksum as a remainder of polynomials over GF(32)

  function Add(x: Sym, y: Sym): Sym { x ^ y }

  /** Times a, modulo a^5 + a^3 + 1. */
  function TimesA(x: Sym): Sym { (x << 1) ^ (if x & 16 != 0 then 9 else 0) }

  /** Products in GF(32): the bits of y say which of x, ax, a^2 x, a^3 x and a^4 x are added. */
  function Times(x: Sym, y: Sym): Sym {
    var (x1, x2) := (TimesA(x), TimesA(TimesA(x)));
    var (x3, x4) := (TimesA(x2), TimesA(TimesA(x2)));
    (if y & 1 != 0 then x else 0) ^ (if y & 2 != 0 then x1 else 0) ^ (if y & 4 != 0 then x2 else 0)
    ^ (if y & 8 != 0 then x3 else 0) ^ (if y & 16 != 0 then x4 else 0)
  }

  /** The generator is x^6 plus these, the highest power first. */
  const GENERATOR: seq<Sym> := [29, 22, 20, 21, 29, 18]

  /** A remainder times x plus v, modulo the generator: the coefficient of x^6 times the generator is taken off. */
  function TimesX(r: seq<Sym>, v: Sym): (t: seq<Sym>)
    requires |r| == 6
    ensures |t| == 6
  {
    seq(6, i requires 0 <= i < 6 => Add(if i < 5 then r[i + 1] else v, Times(r[0], GENERATOR[i])))
  }

  /** The remainder of a polynomial: 1 as the leading coefficient, and then those of v. */
  function Remainder(v: seq<Sym>): (r: seq<Sym>)
    ensures |r| == 6
  {
    if v == [] then [0, 0, 0, 0, 0, 1] else TimesX(Remainder(v[..|v| - 1]), v[|v| - 1])
  }

  /** The example of the standard: {5} times {26} is {9}. */
  lemma TimesExample()
    ensures Times(5, 26) == 9 && Times(26, 5) == 9
  {
  }

  lemma LowXor(a: Word, b: Word)
    ensures Low(Xor(a, b)) == Add(Low(a), Low(b))
  {
  }

  lemma DownXor(a: Word, b: Word)
    ensures Down(Xor(a, b)) == Xor(Down(a), Down(b))
  {
  }

  lemma {:induction false} DownByXor(a: Word, b: Word, k: nat)
    ensures DownBy(Xor(a, b), k) == Xor(DownBy(a, k), DownBy(b, k))
  {
    hide Down, Xor;
    if k > 0 {
      DownByXor(a, b, k - 1);
      DownXor(DownBy(a, k - 1), DownBy(b, k - 1));
    }
  }

  lemma GroupXor(a: Word, b: Word, i: nat)
    requires i < 6
    ensures Group(Xor(a, b), i) == Add(Group(a, i), Group(b, i))
  {
    hide Low, DownBy, Xor, Add;
    DownByXor(a, b, 5 - i);
    LowXor(DownBy(a, 5 - i), DownBy(b, 5 - i));
  }

  /** Shifting moves every coefficient up by one power. */
  lemma GroupShift(c: Word, i: nat)
    requires i < 6
    ensures Group(Shift(c), i) == if i < 5 then Group(c, i + 1) else 0
  {
    hide Shift, Down, Low;
    DownChain(c);
    DownChain(Shift(c));
    ShiftChain(c);
  }

  lemma ShiftChain(c: Word)
    ensures var s := Shift(c);
      && Low(s) == 0 && Low(Down(s)) == Low(c) && Low(Down(Down(s))) == Low(Down(c))
      && Low(Down(Down(Down(s)))) == Low(Down(Down(c)))
      && Low(Down(Down(Down(Down(s))))) == Low(Down(Down(Down(c))))
      && Low(Down(Down(Down(Down(Down(s)))))) == Low(Down(Down(Down(Down(c)))))
  {
  }

  lemma GroupWide(v: Sym, i: nat)
    requires i < 6
    ensures Group(Wide(v), i) == if i < 5 then 0 else v
  {
    hide Down, Low, Wide;
    DownChain(Wide(v));
    WideChain(v);
  }

  lemma WideChain(v: Sym)
    ensures Low(Wide(v)) == v && Down(Wide(v)) == 0 && Down(0) == 0 && Low(0) == 0
  {
  }

  /** What is added is the coefficient of x^6 times the generator. */
  lemma GroupFold(t: Sym, i: nat)
    requires i < 6
    ensures Group(Fold(Wide(t)), i) == Times(t, GENERATOR[i])
  {
    hide Down, Low, Wide, Fold, Times;
    DownChain(Fold(Wide(t)));
    FoldChain(t);
  }

  lemma FoldChain(t: Sym)
    ensures var f := Fold(Wide(t));
      && Low(f) == Times(t, 18) && Low(Down(f)) == Times(t, 29) && Low(Down(Down(f))) == Times(t, 21)
      && Low(Down(Down(Down(f)))) == Times(t, 20) && Low(Down(Down(Down(Down(f))))) == Times(t, 22)
      && Low(Down(Down(Down(Down(Down(f)))))) == Times(t, 29)
  {
  }

  lemma TopIsGroup(c: Word)
    requires c < LIMIT
    ensures Top(c) == Wide(Group(c, 0))
  {
    hide Top, Wide, Down, Low;
    DownChain(c);
    TopChain(c);
  }

  lemma TopChain(c: Word)
    requires c < LIMIT
    ensures Top(c) == Wide(Low(Down(Down(Down(Down(Down(c)))))))
  {
  }

  /** One step multiplies by x and adds the symbol, modulo the generator. */
  lemma StepIsTimesX(c: Word, v: Sym)
    requires c < LIMIT
    ensures GroupList(Step(c, v)) == TimesX(GroupList(c), v)
  {
    hide Group, Step, Times, Add;
    forall i | 0 <= i < 6
      ensures Group(Step(c, v), i) == Add(if i < 5 then Group(c, i + 1) else v, Times(Group(c, 0), GENERATOR[i]))
    {
      StepGroup(c, v, i);
    }
  }

  lemma StepGroup(c: Word, v: Sym, i: nat)
    requires c < LIMIT && i < 6
    ensures Group(Step(c, v), i) == Add(if i < 5 then Group(c, i + 1) else v, Times(Group(c, 0), GENERATOR[i]))
  {
    hide Group, Step, Shift, Wide, Fold, Top, Xor, Times, Add;
    StepIs(c, v);
    TopIsGroup(c);
    GroupXor(Xor(Shift(c), Wide(v)), Fold(Top(c)), i);
    GroupXor(Shift(c), Wide(v), i);
    GroupShift(c, i);
    GroupWide(v, i);
    GroupFold(Group(c, 0), i);
    if i < 5 { AddNone(Group(c, i + 1)); } else { AddNone(v); }
  }

  lemma AddNone(x: Sym)
    ensures Add(x, 0) == x && Add(0, x) == x
  {
  }

  lemma OneGroups()
    ensures GroupList(1) == [0, 0, 0, 0, 0, 1]
  {
    hide Down, Low, Group;
    DownChain(1);
    OneChain();
  }

  lemma OneChain()
    ensures Low(1) == 1 && Down(1) == 0 && Down(0) == 0 && Low(0) == 0
  {
  }

  /** The checksum word holds the remainder, coefficient by coefficient. */
  lemma {:induction false} ModIsRemainder(v: seq<Sym>)
    ensures GroupList(Mod(1, v)) == Remainder(v)
  {
    hide Step, GroupList, TimesX;
    if v == [] {
      OneGroups();
    } else {
      ModIsRemainder(v[..|v| - 1]);
      ModBound(1, v[..|v| - 1]);
      StepIsTimesX(Mod(1, v[..|v| - 1]), v[|v| - 1]);
    }
  }

  method PolyMod(v: seq<Sym>) returns (c: Word)
    ensures c == Mod(1, v)
  {
    hide Xor, Part, Step, Shift, Wide, Top;
    c := 1;
    for i := 0 to |v|
      invariant c == Mod(1, v[..i])
    {
      var c0 := Top(c);
      assert v[..i + 1][..i] == v[..i];
      StepIs(c, v[i]);
      c := Xor(Shift(c), Wide(v[i]));
      OneByOne(c, Part(c0, 1, 0x3b6a57b2), Part(c0, 2, 0x26508e6d), Part(c0, 4, 0x1ea119fa),
               Part(c0, 8, 0x3d4233dd), Part(c0, 16, 0x2a1462b3));
      c := Xor(c, Part(c0, 1, 0x3b6a57b2));
      c := Xor(c, Part(c0, 2, 0x26508e6d));
      c := Xor(c, Part(c0, 4, 0x1ea119fa));
      c := Xor(c, Part(c0, 8, 0x3d4233dd));
      c := Xor(c, Part(c0, 16, 0x2a1462b3));
    }
    assert v[..|v|] == v;
  }

  lemma OneByOne(c: Word, p1: Word, p2: Word, p3: Word, p4: Word, p5: Word)
    ensures Xor(Xor(Xor(Xor(Xor(c, p1), p2), p3), p4), p5) == Xor(c, Xor(Xor(Xor(Xor(p1, p2), p3), p4), p5))
  {
    hide Xor;
    Assoc(c, p1, p2);
    Assoc(c, Xor(p1, p2), p3);
    Assoc(c, Xor(Xor(p1, p2), p3), p4);
    Assoc(c, Xor(Xor(Xor(p1, p2), p3), p4), p5);
  }

  lemma StepIs(c: Word, v: Sym)
    ensures Step(c, v) == Xor(Xor(Shift(c), Wide(v)), Fold(Top(c)))
  {
  }

  // ----- checksums

  /** The prefix, as symbols: upper bits, a zero, lower bits. */
  function ExpandHRP(hrp: string): seq<Sym>
    requires IsByteText(hrp)
  {
    seq(|hrp|, i requires 0 <= i < |hrp| => (hrp[i] as int / 32) as Sym) + [0]
    + seq(|hrp|, i requires 0 <= i < |hrp| => (hrp[i] as int % 32) as Sym)
  }

  predicate IsByteText(s: string) { forall i :: 0 <= i < |s| ==> s[i] as int < 256 }

  predicate Verifies(hrp: string, values: seq<Sym>)
    requires IsByteText(hrp)
  {
    Mod(1, ExpandHRP(hrp) + values) == 1
  }

  function Checksum(hrp: string, values: seq<Sym>): seq<Sym>
    requires IsByteText(hrp)
  {
    GroupList(Xor(Mod(1, ExpandHRP(hrp) + values + Nil(6)), 1))
  }

  method CreateChecksum(hrp: string, values: seq<Sym>) returns (ret: seq<Sym>)
    requires IsByteText(hrp)
    ensures ret == Checksum(hrp, values)
  {
    hide Mod, Xor, Group;
    var enc := ExpandHRP(hrp) + values;
    enc := enc + Nil(6);
    var mod := PolyMod(enc);
    mod := Xor(mod, 1);
    ret := [];
    for i := 0 to 6
      invariant |ret| == i && forall j :: 0 <= j < i ==> ret[j] == Group(mod, j)
    {
      ret := ret + [Group(mod, i)];
    }
  }

  method VerifyChecksum(hrp: string, values: seq<Sym>) returns (ok: bool)
    requires IsByteText(hrp)
    ensures ok == Verifies(hrp, values)
  {
    hide Mod;
    var c := PolyMod(ExpandHRP(hrp) + values);
    return c == 1;
  }

  /** Six symbols make a list valid if and only if they are its checksum. */
  lemma OnlyChecksum(hrp: string, values: seq<Sym>, six: seq<Sym>)
    requires IsByteText(hrp) && |six| == 6
    ensures Verifies(hrp, values + six) <==> six == Checksum(hrp, values)
  {
    hide Mod, Xor, Group;
    var enc := ExpandHRP(hrp) + values;
    var c := Mod(1, enc);
    assert ExpandHRP(hrp) + (values + six) == enc + six;
    ModAppend(1, enc, six);
    ModAppend(1, enc, Nil(6));
    ModLinear(c, six);
    var f, m := Mod(c, Nil(6)), Mod(0, six);
    var mod := Xor(f, 1);
    ModBound(1, enc + Nil(6));
    XorBound(f, 1);
    assert six == [six[0], six[1], six[2], six[3], six[4], six[5]];
    GroupsOf(six[0], six[1], six[2], six[3], six[4], six[5]);
    GroupsBack(mod);
    XorSolve(f, m);
    assert enc + Nil(6) == ExpandHRP(hrp) + values + Nil(6);
  }

  lemma XorSolve(f: Word, m: Word)
    ensures Xor(f, m) == 1 <==> m == Xor(f, 1)
  {
    hide Xor;
    Assoc(f, f, m);
    Assoc(f, f, 1);
    Units(f);
    Units(m);
    Units(1);
  }

  /** A list is valid exactly when its polynomial, with that of the prefix, leaves the remainder 1. */
  lemma ValidIsRemainderOne(hrp: string, values: seq<Sym>)
    requires IsByteText(hrp)
    ensures Verifies(hrp, values) <==> Remainder(ExpandHRP(hrp) + values) == [0, 0, 0, 0, 0, 1]
  {
    hide Mod, Remainder, GroupList, ExpandHRP;
    var v := ExpandHRP(hrp) + values;
    ModIsRemainder(v);
    ModBound(1, v);
    OneGroups();
    if GroupList(Mod(1, v)) == GroupList(1) { SameGroups(Mod(1, v), 1); }
  }

  lemma SameGroups(m: Word, n: Word)
    requires m < LIMIT && n < LIMIT && GroupList(m) == GroupList(n)
    ensures m == n
  {
    hide Mod, Group;
    GroupsBack(m);
    GroupsBack(n);
    assert GroupList(m)[0] == GroupList(n)[0] && GroupList(m)[1] == GroupList(n)[1];
    assert GroupList(m)[2] == GroupList(n)[2] && GroupList(m)[3] == GroupList(n)[3];
    assert GroupList(m)[4] == GroupList(n)[4] && GroupList(m)[5] == GroupList(n)[5];
  }

  /** Replacing one symbol of a valid list makes it invalid. */
  lemma SubstitutionDetected(hrp: string, values: seq<Sym>, i: nat, x: Sym)
    requires IsByteText(hrp) && Verifies(hrp, values) && i < |values| && x != values[i]
    ensures !Verifies(hrp, values[i := x])
  {
    hide Mod;
    var p := ExpandHRP(hrp);
    assert p + values[i := x] == (p + values)[|p| + i := x];
    ModDiffers(1, p + values, |p| + i, x);
  }

  /** So does any change within six consecutive symbols. */
  lemma BurstDetected(hrp: string, values: seq<Sym>, i: nat, x: seq<Sym>)
    requires IsByteText(hrp) && Verifies(hrp, values) && |x| <= 6 && i + |x| <= |values| && values[i..i + |x|] != x
    ensures !Verifies(hrp, values[..i] + x + values[i + |x|..])
  {
    hide Mod;
    var front, was, rest := ExpandHRP(hrp) + values[..i], values[i..i + |x|], values[i + |x|..];
    assert ExpandHRP(hrp) + values == front + was + rest;
    assert ExpandHRP(hrp) + (values[..i] + x + rest) == front + x + rest;
    var c := Mod(1, front);
    ModBound(1, front);
    ModAppend(1, front, was);
    ModAppend(1, front, x);
    ModAppend(1, front + was, rest);
    ModAppend(1, front + x, rest);
    BurstDiffers(c, was, x);
    ModBound(c, was);
    ModBound(c, x);
    ModInjective(Mod(c, was), Mod(c, x), rest);
  }

  /** Exchanging two different neighbours is such a change. */
  lemma TranspositionDetected(hrp: string, values: seq<Sym>, i: nat)
    requires IsByteText(hrp) && Verifies(hrp, values) && i + 1 < |values| && values[i] != values[i + 1]
    ensures !Verifies(hrp, values[i := values[i + 1]][i + 1 := values[i]])
  {
    hide Verifies;
    var x := [values[i + 1], values[i]];
    assert values[i..i + 2][0] != x[0];
    BurstDetected(hrp, values, i, x);
    assert values[..i] + x + values[i + 2..] == values[i := values[i + 1]][i + 1 := values[i]];
  }

  // ----- text

  /** The character set, by code. */
  function CodeOf(c: Sym): int {
    if c == 0 then 113 else if c == 1 then 112 else if c == 2 then 122 else if c == 3 then 114  // qpzr
    else if c == 4 then 121 else if c == 5 then 57 else if c == 6 then 120 else if c == 7 then 56  // y9x8
    else if c == 8 then 103 else if c == 9 then 102 else if c == 10 then 50 else if c == 11 then 116  // gf2t
    else if c == 12 then 118 else if c == 13 then 100 else if c == 14 then 119 else if c == 15 then 48  // vdw0
    else if c == 16 then 115 else if c == 17 then 51 else if c == 18 then 106 else if c == 19 then 110  // s3jn
    else if c == 20 then 53 else if c == 21 then 52 else if c == 22 then 107 else if c == 23 then 104  // 54kh
    else if c == 24 then 99 else if c == 25 then 101 else if c == 26 then 54 else if c == 27 then 109  // ce6m
    else if c == 28 then 117 else if c == 29 then 97 else if c == 30 then 55 else 108  // ua7l
  }

  function CharOf(c: Sym): char { CodeOf(c) as char }

  function Lookup(n: int): Option<Sym> {
    if n == 113 then Some(0) else if n == 112 then Some(1) else if n == 122 then Some(2)
    else if n == 114 then Some(3) else if n == 121 then Some(4) else if n == 57 then Some(5)
    else if n == 120 then Some(6) else if n == 56 then Some(7) else if n == 103 then Some(8)
    else if n == 102 then Some(9) else if n == 50 then Some(10) else if n == 116 then Some(11)
    else if n == 118 then Some(12) else if n == 100 then Some(13) else if n == 119 then Some(14)
    else if n == 48 then Some(15) else if n == 115 then Some(16) else if n == 51 then Some(17)
    else if n == 106 then Some(18) else if n == 110 then Some(19) else if n == 53 then Some(20)
    else if n == 52 then Some(21) else if n == 107 then Some(22) else if n == 104 then Some(23)
    else if n == 99 then Some(24) else if n == 101 then Some(25) else if n == 54 then Some(26)
    else if n == 109 then Some(27) else if n == 117 then Some(28) else if n == 97 then Some(29)
    else if n == 55 then Some(30) else if n == 108 then Some(31)
    else None
  }

  function LowerCode(n: int): int { if 65 <= n <= 90 then n + 32 else n }

  /** The symbol of a character of either case. */
  function SymOf(ch: char): Option<Sym> { Lookup(LowerCode(ch as int)) }

  function LowerCase(c: char): char { LowerCode(c as int) as char }

  lemma LookupCode(c: Sym)
    ensures Lookup(CodeOf(c)) == Some(c) && CodeOf(c) != 49 && 33 <= CodeOf(c) <= 126 && !(65 <= CodeOf(c) <= 90)
  {
  }

  lemma CodeLookup(n: int)
    ensures Lookup(n).Some? ==> CodeOf(Lookup(n).value) == n
  {
  }

  lemma SymOfChar(c: Sym)
    ensures SymOf(CharOf(c)) == Some(c) && CharOf(c) != '1' && LowerCase(CharOf(c)) == CharOf(c)
    ensures IsPrintable(CharOf(c))
    ensures !('A' <= CharOf(c) <= 'Z')
  {
    hide Lookup, CodeOf;
    LookupCode(c);
  }

  lemma CharOfSym(ch: char)
    ensures SymOf(ch).Some? ==> CharOf(SymOf(ch).value) == LowerCase(ch)
  {
    hide Lookup, CodeOf;
    CodeLookup(LowerCode(ch as int));
  }

  predicate IsPrintable(c: char) { 33 <= c as int <= 126 }

  predicate IsLower(c: char) { 'a' <= c <= 'z' }

  predicate IsUpper(c: char) { 'A' <= c <= 'Z' }

  function TextOf(values: seq<Sym>): string { seq(|values|, i requires 0 <= i < |values| => CharOf(values[i])) }

  /** The character set of the standard, in order. */
  lemma Charset()
    ensures TextOf([0, 1, 2, 3]) == "qpzr" && TextOf([4, 5, 6, 7]) == "y9x8" && TextOf([8, 9, 10, 11]) == "gf2t"
    ensures TextOf([12, 13, 14, 15]) == "vdw0" && TextOf([16, 17, 18, 19]) == "s3jn"
    ensures TextOf([20, 21, 22, 23]) == "54kh" && TextOf([24, 25, 26, 27]) == "ce6m"
    ensures TextOf([28, 29, 30, 31]) == "ua7l"
  {
    hide TextOf, CharOf;
    FirstQuarter();
    SecondQuarter();
    ThirdQuarter();
    FourthQuarter();
  }

  lemma FirstQuarter()
    ensures TextOf([0, 1, 2, 3]) == "qpzr" && TextOf([4, 5, 6, 7]) == "y9x8"
  {
    hide TextOf;
    FourSymbols(0, 1, 2, 3);
    FourSymbols(4, 5, 6, 7);
  }

  lemma SecondQuarter()
    ensures TextOf([8, 9, 10, 11]) == "gf2t" && TextOf([12, 13, 14, 15]) == "vdw0"
  {
    hide TextOf;
    FourSymbols(8, 9, 10, 11);
    FourSymbols(12, 13, 14, 15);
  }

  lemma ThirdQuarter()
    ensures TextOf([16, 17, 18, 19]) == "s3jn" && TextOf([20, 21, 22, 23]) == "54kh"
  {
    hide TextOf;
    FourSymbols(16, 17, 18, 19);
    FourSymbols(20, 21, 22, 23);
  }

  lemma FourthQuarter()
    ensures TextOf([24, 25, 26, 27]) == "ce6m" && TextOf([28, 29, 30, 31]) == "ua7l"
  {
    hide TextOf;
    FourSymbols(24, 25, 26, 27);
    FourSymbols(28, 29, 30, 31);
  }

  lemma FourSymbols(a: Sym, b: Sym, c: Sym, d: Sym)
    ensures TextOf([a, b, c, d]) == [CharOf(a), CharOf(b), CharOf(c), CharOf(d)]
  {
    hide CharOf;
  }

  function Encoded(hrp: string, values: seq<Sym>): string
    requires IsByteText(hrp)
  {
    hrp + "1" + TextOf(values + Checksum(hrp, values))
  }

  method Encode(hrp: string, values: seq<Sym>) returns (ret: string)
    requires IsByteText(hrp)
    ensures ret == Encoded(hrp, values)
  {
    hide Checksum, CharOf;
    var checksum := CreateChecksum(hrp, values);
    var combined := values + checksum;
    ret := hrp + "1";
    for i := 0 to |combined|
      invariant ret == hrp + "1" + TextOf(combined[..i])
    {
      assert TextOf(combined[..i + 1]) == TextOf(combined[..i]) + [CharOf(combined[i])];
      ret := ret + [CharOf(combined[i])];
    }
    assert combined[..|combined|] == combined;
  }

  // ----- text back to symbols

  /** The place of the last '1' before n, or -1. */
  function LastOne(s: string, n: nat): (p: int)
    requires n <= |s|
    ensures -1 <= p < n && (p >= 0 ==> s[p] == '1') && forall i :: p < i < n ==> s[i] != '1'
  {
    if n == 0 then -1 else if s[n - 1] == '1' then n - 1 else LastOne(s, n - 1)
  }

  predicate WellCased(s: string) {
    && (forall i :: 0 <= i < |s| ==> IsPrintable(s[i]))
    && !((exists i :: 0 <= i < |s| && IsLower(s[i])) && (exists i :: 0 <= i < |s| && IsUpper(s[i])))
  }

  function Lowered(s: string): string { seq(|s|, i requires 0 <= i < |s| => LowerCase(s[i])) }

  predicate AllSymbols(s: string) { forall i :: 0 <= i < |s| ==> SymOf(s[i]).Some? }

  function SymbolsOf(s: string): seq<Sym>
    requires AllSymbols(s)
  {
    seq(|s|, i requires 0 <= i < |s| => SymOf(s[i]).value)
  }

  lemma LoweredBytes(s: string)
    requires forall i :: 0 <= i < |s| ==> IsPrintable(s[i])
    ensures IsByteText(Lowered(s))
  {
  }

  /** What a text stands for, if its characters, its shape and its checksum are right. */
  function Decoded(s: string): Option<(string, seq<Sym>)> {
    var pos := LastOne(s, |s|);
    if !WellCased(s) || |s| > 90 || pos < 1 || pos + 7 > |s| || !AllSymbols(s[pos + 1..]) then None
    else
      LoweredBytes(s[..pos]);
      var hrp, values := Lowered(s[..pos]), SymbolsOf(s[pos + 1..]);
      if Verifies(hrp, values) then Some((hrp, values[..|values| - 6])) else None
  }

  /** One case at most, and nothing that cannot be printed. */
  method CheckCase(s: string) returns (ok: bool)
    ensures ok == WellCased(s)
  {
    hide IsLower, IsUpper;
    var lower, upper := false, false;
    for i := 0 to |s|
      invariant lower <==> exists k :: 0 <= k < i && IsLower(s[k])
      invariant upper <==> exists k :: 0 <= k < i && IsUpper(s[k])
      invariant forall k :: 0 <= k < i ==> IsPrintable(s[k])
    {
      var c := s[i];
      Letters(c);
      if IsLower(c) { lower := true; } else if IsUpper(c) { upper := true; } else if !IsPrintable(c) { return false; }
    }
    ok := !(lower && upper);
  }

  lemma Letters(c: char)
    ensures IsLower(c) || IsUpper(c) ==> IsPrintable(c)
    ensures !(IsLower(c) && IsUpper(c))
  {
  }

  /** The symbols from a place on. */
  method ReadSymbols(s: string, from: nat) returns (ok: bool, values: seq<Sym>)
    requires from <= |s|
    ensures ok <==> AllSymbols(s[from..])
    ensures ok ==> values == SymbolsOf(s[from..])
  {
    hide SymOf;
    values := [];
    ghost var tail := s[from..];
    for i := 0 to |s| - from
      invariant |values| == i && forall k :: 0 <= k < i ==> SymOf(tail[k]) == Some(values[k])
    {
      var rev := SymOf(s[i + from]);
      assert tail[i] == s[i + from];
      if rev.None? { return false, values; }
      values := values + [rev.value];
    }
    forall k | 0 <= k < |tail| ensures SymOf(tail[k]).Some? { assert SymOf(tail[k]) == Some(values[k]); }
    ok := true;
  }

  method LowerPrefix(s: string, pos: nat) returns (hrp: string)
    requires pos <= |s|
    ensures hrp == Lowered(s[..pos])
  {
    hide LowerCase;
    hrp := "";
    for i := 0 to pos
      invariant hrp == Lowered(s[..i])
    {
      assert Lowered(s[..i + 1]) == Lowered(s[..i]) + [LowerCase(s[i])];
      hrp := hrp + [LowerCase(s[i])];
    }
  }

  method Decode(s: string) returns (r: Option<(string, seq<Sym>)>)
    requires IsByteText(s)
    ensures r == Decoded(s)
  {
    hide Verifies, AllSymbols, SymbolsOf, Lowered, IsByteText;
    var cased := CheckCase(s);
    if !cased { return None; }
    var pos := LastOne(s, |s|);
    if |s| > 90 || pos == -1 || pos == 0 || pos + 7 > |s| { return None; }
    var known, values := ReadSymbols(s, pos + 1);
    if !known { return None; }
    var hrp := LowerPrefix(s, pos);
    LoweredBytes(s[..pos]);
    SymbolsLength(s[pos + 1..]);
    var ok := VerifyChecksum(hrp, values);
    if !ok { return None; }
    return Some((hrp, values[..|values| - 6]));
  }

  lemma SymbolsLength(s: string)
    requires AllSymbols(s)
    ensures |SymbolsOf(s)| == |s|
  {
  }

  // ----- both ways

  /** A prefix that decodes to itself: printable and without capitals. */
  ghost predicate IsPrefix(hrp: string) {
    hrp != "" && forall i :: 0 <= i < |hrp| ==> IsPrintable(hrp[i]) && !IsUpper(hrp[i])
  }

  lemma PrefixBytes(hrp: string)
    requires IsPrefix(hrp)
    ensures IsByteText(hrp) && Lowered(hrp) == hrp
  {
  }

  lemma TextSymbols(values: seq<Sym>)
    ensures AllSymbols(TextOf(values)) && SymbolsOf(TextOf(values)) == values
    ensures forall i :: 0 <= i < |values| ==>
      TextOf(values)[i] != '1' && IsPrintable(TextOf(values)[i]) && !IsUpper(TextOf(values)[i])
  {
    hide CharOf, SymOf, LowerCase;
    forall i | 0 <= i < |values|
      ensures SymOf(TextOf(values)[i]) == Some(values[i]) && TextOf(values)[i] != '1' && IsPrintable(TextOf(values)[i])
      ensures !IsUpper(TextOf(values)[i])
    {
      SymOfChar(values[i]);
    }
  }

  lemma LastOneIs(s: string, p: nat, n: nat)
    requires p < n <= |s| && s[p] == '1' && forall i :: p < i < n ==> s[i] != '1'
    ensures LastOne(s, n) == p
  {
  }

  /** Decoding undoes encoding, for every such prefix and all symbols that fit 90 characters. */
  lemma DecodeEncoded(hrp: string, values: seq<Sym>)
    requires IsPrefix(hrp) && |hrp| + 1 + |values| + 6 <= 90
    ensures IsByteText(hrp) && Decoded(Encoded(hrp, values)) == Some((hrp, values))
  {
    hide Verifies, SymOf, LowerCase, CharOf, Mod, Xor, Group;
    PrefixBytes(hrp);
    var all := values + Checksum(hrp, values);
    var text, s := TextOf(all), Encoded(hrp, values);
    TextSymbols(all);
    LastOneIs(s, |hrp|, |s|);
    assert s[|hrp| + 1..] == text && s[..|hrp|] == hrp;
    OnlyChecksum(hrp, values, Checksum(hrp, values));
  }

  /** Encoding what a text decodes to gives the text back, in lower case. */
  lemma EncodeDecoded(s: string)
    requires Decoded(s).Some?
    ensures var (hrp, values) := Decoded(s).value; IsByteText(hrp) && Encoded(hrp, values) == Lowered(s)
  {
    hide Verifies, SymOf, LowerCase, CharOf, Checksum;
    var pos := LastOne(s, |s|);
    LoweredBytes(s[..pos]);
    var hrp, all := Lowered(s[..pos]), SymbolsOf(s[pos + 1..]);
    var values, six := all[..|all| - 6], all[|all| - 6..];
    assert values + six == all;
    OnlyChecksum(hrp, values, six);
    forall i | 0 <= i < |all| ensures CharOf(all[i]) == LowerCase(s[pos + 1 + i]) {
      assert s[pos + 1..][i] == s[pos + 1 + i];
      CharOfSym(s[pos + 1 + i]);
    }
    OneIsLower();
    assert TextOf(all) == Lowered(s)[pos + 1..];
    assert Lowered(s) == hrp + "1" + TextOf(all);
  }

  lemma OneIsLower()
    ensures LowerCase('1') == '1'
  {
  }

  // ----- a string of the standard

  lemma ShortSteps()
    ensures Step(1, 3) == 0x23 && Step(0x23, 0) == 0x460 && Step(0x460, 1) == 0x8c01
    ensures Step(0x8c01, 10) == 0x11802a && Step(0x11802a, 28) == 0x230055c && Step(0x230055c, 25) == 0x3d6afc2b
    ensures Step(0x3d6afc2b, 31) == 0x2f84386 && Step(0x2f84386, 20) == 0x24622766 && Step(0x24622766, 31) == 1
  {
  }

  const SHORT: seq<Sym> := [10, 28, 25, 31, 20, 31]

  lemma ShortValid()
    ensures Verifies("a", SHORT)
  {
    hide Step, Mod;
    ShortSteps();
    assert ExpandHRP("a") == [3, 0, 1];
    ModThree(1, 3, 0, 1);
    Mod6(0x8c01, 10, 28, 25, 31, 20, 31);
    ModAppend(1, [3, 0, 1], SHORT);
  }

  lemma ModThree(c: Word, a0: Sym, a1: Sym, a2: Sym)
    ensures Mod(c, [a0, a1, a2]) == Step(Step(Step(c, a0), a1), a2)
  {
    hide Mod, Step;
    ModNone(c);
    ModMore(c, [], a0);
    assert [] + [a0] == [a0];
    ModMore(c, [a0], a1);
    assert [a0] + [a1] == [a0, a1];
    ModMore(c, [a0, a1], a2);
    assert [a0, a1] + [a2] == [a0, a1, a2];
  }

  lemma ShortSymbols()
    ensures AllSymbols("2UEL5L") && SymbolsOf("2UEL5L") == SHORT
  {
    var t := "2UEL5L";
    assert SymOf(t[0]) == Some(10) && SymOf(t[1]) == Some(28) && SymOf(t[2]) == Some(25);
    assert SymOf(t[3]) == Some(31) && SymOf(t[4]) == Some(20) && SymOf(t[5]) == Some(31);
  }

  lemma ShortCased()
    ensures WellCased("A12UEL5L") && Lowered("A12UEL5L") == "a12uel5l" && Lowered("A") == "a"
  {
    var t := "A12UEL5L";
    forall i | 0 <= i < |t| ensures IsPrintable(t[i]) && !IsLower(t[i]) {}
  }

  /** The shortest valid string of the standard: prefix "a" and no data. */
  lemma ShortestString()
    ensures Decoded("A12UEL5L") == Some(("a", [])) && Encoded("a", []) == "a12uel5l"
  {
    hide Verifies, WellCased, AllSymbols, SymbolsOf, Lowered, Encoded;
    ShortValid();
    ShortSymbols();
    ShortCased();
    var s := "A12UEL5L";
    LastOneIs(s, 1, 8);
    assert s[2..] == "2UEL5L" && s[..1] == "A";
    assert SHORT[..0] == [];
    EncodeDecoded(s);
  }
}
