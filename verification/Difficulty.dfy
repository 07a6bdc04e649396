/**
 Difficulty targets in 32 bits: a length in bytes and the top bytes of the number, with
 a sign bit that keeps the mantissa to 23 bits; and the expected number of hashes for a target.
 */
module Difficulty {
  import opened Arithmetic
  import opened Limbs

  const MANTISSA: nat := 0x80_0000   // 2^23; the bit of this weight is the sign
  const BYTE3: nat := 0x100_0000     // 2^24; the length stands above it
  const WIDTH: nat := 8

  ghost function TwoTo256(): nat { Pow(WIDTH) }

  function SizeOf(nCompact: nat): nat { nCompact / BYTE3 }

  function WordOf(nCompact: nat): nat { nCompact % MANTISSA }

  predicate SignOf(nCompact: nat) { nCompact / MANTISSA % 2 == 1 }

  /** The number meant, whatever its size. */
  ghost function Meaning(nCompact: nat): nat {
    var size, word := SizeOf(nCompact), WordOf(nCompact);
    if size <= 3 then Quot(word, Pow2(8 * (3 - size))) else Scaled(word, 8 * (size - 3))
  }

  /** What some compact words mean; the fourth is the target of the first block, the fifth has the sign bit. */
  lemma KnownTargets()
    ensures Meaning(0x0112_3456) == 0x12 && Meaning(0x0200_8000) == 0x80 && Meaning(0x0500_9234) == 0x9234_0000
    ensures Meaning(0x1d00_ffff) == 0xffff * Pow2(208) && SignOf(0x0492_3456) && Meaning(0x0492_3456) == 0x1234_5600
  {
    Pow2Values();
    QuotUnique(0x12_3456, 0x1_0000, 0x12, 0x3456);
    QuotUnique(0x8000, 0x100, 0x80, 0);
    ScaledIs(0x9234, 16);
    ScaledIs(0xffff, 208);
    ScaledIs(0x12_3456, 8);
  }

  lemma ScaledLess(word: nat, e: nat, f: nat)
    requires e <= f
    ensures Scaled(word, e) >= Pow2(f) <==> word >= Pow2(f - e)
  {
    Pow2Add(f - e, e);
    if word >= Pow2(f - e) { MulLe(Pow2(f - e), word, Pow2(e)); } else { MulStep(word, Pow2(f - e), Pow2(e)); }
  }

  /** Too large for 256 bits: the comparisons on word and size say so exactly. */
  lemma OverflowIs(word: nat, size: nat)
    requires word < MANTISSA && size > 3
    ensures Scaled(word, 8 * (size - 3)) >= TwoTo256() <==>
      (word != 0 && (size > 34 || (word > 0xff && size > 33) || (word > 0xffff && size > 32)))
  {
    hide Scaled, Pow2;
    Pow2Values();
    Pow2Next(0);
    if size > 34 {
      Pow2Le(256, 8 * (size - 3));
      ScaledLarge(word, 8 * (size - 3));
    } else if size > 32 {
      ScaledLess(word, 8 * (size - 3), 256);
      assert 256 - 8 * (size - 3) == if size == 34 then 8 else 16;
    } else {
      ScaledLess(word, 8 * (size - 3), 256);
      Pow2Le(24, 256 - 8 * (size - 3));
    }
  }

  lemma ScaledLarge(word: nat, e: nat)
    ensures word == 0 ==> Scaled(word, e) == 0
    ensures word > 0 ==> Scaled(word, e) >= Pow2(e)
  {
    if word > 0 { MulLe(1, word, Pow2(e)); }
  }

  /** Sets a number from its compact form. */
  method SetCompact(t: BaseUint, nCompact: nat) returns (negative: bool, overflow: bool)
    requires t.Valid() && t.pn.Length == WIDTH && nCompact < BASE
    modifies t.pn
    ensures t.Valid() && t.Value() == Meaning(nCompact) % TwoTo256()
    ensures negative <==> Meaning(nCompact) != 0 && SignOf(nCompact)
    ensures overflow <==> Meaning(nCompact) >= TwoTo256()
  {
    hide Val, Pow, Pow2, Scaled, Quot;
    var nSize, nWord := SizeOf(nCompact), WordOf(nCompact);
    if nSize <= 3 {
      ShortMeaning(nCompact);
      nWord := Quot(nWord, Pow2(8 * (3 - nSize)));
      t.Assign(nWord);
    } else {
      OverflowIs(nWord, nSize);
      ScaledLarge(nWord, 8 * (nSize - 3));
      ScaledIs(nWord, 8 * (nSize - 3));
      t.Assign(nWord);
      t.ShiftLeft(8 * (nSize - 3));
    }
    negative := nWord != 0 && SignOf(nCompact);
    overflow := nWord != 0 && (nSize > 34 || (nWord > 0xff && nSize > 33) || (nWord > 0xffff && nSize > 32));
  }

  lemma ScaledIs(word: nat, e: nat)
    ensures Scaled(word, e) == word * Pow2(e)
  {
  }

  lemma ShortMeaning(nCompact: nat)
    requires SizeOf(nCompact) <= 3
    ensures Meaning(nCompact) < MANTISSA < TwoTo256() && Meaning(nCompact) % TwoTo256() == Meaning(nCompact)
  {
    hide Quot, Pow2;
    var p := Pow2(8 * (3 - SizeOf(nCompact)));
    QuotRem(WordOf(nCompact), p);
    var q := Meaning(nCompact);
    MulLe(1, p, q);
    assert p * q == q * p;
    Pow2Values();
    Pow2Le(24, 256);
    DivUnique(q, TwoTo256(), 0, q);
  }

  // ----- the compact form of a number

  /** Bytes needed when the top bit of the first one must stay clear. */
  ghost function CompactSize(x: nat): nat { if x == 0 then 0 else BitLen(x) / 8 + 1 }

  ghost function CompactWord(x: nat): nat {
    var size := CompactSize(x);
    if size <= 3 then Scaled(x, 8 * (3 - size)) else Quot(x, Pow2(8 * (size - 3)))
  }

  ghost function CompactOf(x: nat, negative: bool): nat {
    CompactWord(x) + CompactSize(x) * BYTE3 + if negative && CompactWord(x) != 0 then MANTISSA else 0
  }

  lemma ScaledBound(x: nat, n: nat, e: nat)
    requires x < Pow2(n)
    ensures Scaled(x, e) < Pow2(n + e)
  {
    Pow2Add(n, e);
    MulStep(x, Pow2(n), Pow2(e));
  }

  lemma QuotBound(x: nat, n: nat, e: nat)
    requires x < Pow2(n) && e <= n
    ensures Quot(x, Pow2(e)) < Pow2(n - e)
  {
    hide Quot;
    QuotRem(x, Pow2(e));
    Pow2Add(n - e, e);
    if Quot(x, Pow2(e)) >= Pow2(n - e) { MulLe(Pow2(n - e), Quot(x, Pow2(e)), Pow2(e)); }
  }

  lemma WordBound(x: nat)
    ensures CompactWord(x) < MANTISSA
  {
    hide Quot, Pow2, Scaled, BitLen;
    Pow2Values();
    var n, size := BitLen(x), CompactSize(x);
    if x == 0 {
      ScaledLarge(0, 24);
    } else if size <= 3 {
      ScaledBound(x, n, 8 * (3 - size));
      Pow2Le(n + 8 * (3 - size), 23);
    } else {
      QuotBound(x, n, 8 * (size - 3));
      Pow2Le(n - 8 * (size - 3), 23);
    }
  }

  lemma PartsOf(x: nat)
    ensures SizeOf(CompactOf(x, false)) == CompactSize(x) && WordOf(CompactOf(x, false)) == CompactWord(x)
    ensures !SignOf(CompactOf(x, false))
  {
    hide CompactSize, CompactWord;
    WordBound(x);
    var size, word := CompactSize(x), CompactWord(x);
    DivUnique(CompactOf(x, false), BYTE3, size, word);
    DivUnique(CompactOf(x, false), MANTISSA, 2 * size, word);
  }

  /** A number with the bytes cleared that the compact form has no room for. */
  ghost function Truncated(x: nat): nat {
    var size := CompactSize(x);
    if size <= 3 then x else Scaled(Quot(x, Pow2(8 * (size - 3))), 8 * (size - 3))
  }

  lemma TruncatedBelow(x: nat)
    ensures Truncated(x) <= x < Truncated(x) + Pow2(if CompactSize(x) <= 3 then 0 else 8 * (CompactSize(x) - 3))
  {
    hide Quot, BitLen;
    var size := CompactSize(x);
    if size > 3 { QuotRem(x, Pow2(8 * (size - 3))); }
  }

  /** The compact form of a number means the number with its low bytes cleared. */
  lemma MeaningOfCompact(x: nat)
    ensures Meaning(CompactOf(x, false)) == Truncated(x)
  {
    hide Quot, Pow2, Scaled, CompactSize, CompactOf;
    PartsOf(x);
    var size := CompactSize(x);
    if size <= 3 {
      var e := 8 * (3 - size);
      ScaledIs(x, e);
      QuotUnique(Scaled(x, e), Pow2(e), x, 0);
    }
  }

  lemma TruncatedLength(x: nat)
    ensures BitLen(Truncated(x)) == BitLen(x)
  {
    hide BitLen, Quot, Pow2, Scaled;
    var n, size := BitLen(x), CompactSize(x);
    if size > 3 {
      var e := 8 * (size - 3);
      TruncatedBelow(x);
      QuotRem(x, Pow2(e));
      var q := Quot(x, Pow2(e));
      LengthBounds(x);
      Pow2Add(n - 1 - e, e);
      ScaledIs(q, e);
      if q < Pow2(n - 1 - e) { MulStep(q, Pow2(n - 1 - e), Pow2(e)); }
      MulLe(Pow2(n - 1 - e), q, Pow2(e));
      BitLenUnique(Truncated(x), n);
    }
  }

  lemma LengthBounds(x: nat)
    ensures x < Pow2(BitLen(x)) && (x > 0 ==> BitLen(x) > 0 && Pow2(BitLen(x) - 1) <= x)
  {
  }

  /** Encoding what was decoded gives the same word: nothing more is lost. */
  lemma CompactStable(x: nat)
    ensures CompactOf(Truncated(x), false) == CompactOf(x, false)
  {
    hide BitLen, Quot, Pow2, Scaled;
    var size := CompactSize(x);
    if size > 3 {
      var e := 8 * (size - 3);
      TruncatedLength(x);
      LengthBounds(x);
      LengthBounds(Truncated(x));
      NonZeroLength(x);
      var q := Quot(x, Pow2(e));
      ScaledIs(q, e);
      QuotUnique(Scaled(q, e), Pow2(e), q, 0);
      assert CompactSize(Truncated(x)) == size;
    }
  }

  lemma NonZeroLength(x: nat)
    requires x > 0
    ensures Truncated(x) > 0
  {
    hide Quot, Pow2, Scaled;
    TruncatedLength(x);
  }

  /** For every 256-bit number: decoding its compact form is exact up to the cleared bytes, without flags. */
  lemma CompactRoundTrip(x: nat)
    requires x < TwoTo256()
    ensures var c := CompactOf(x, false);
      && c < BASE && Meaning(c) == Truncated(x) <= x && !SignOf(c) && Meaning(c) < TwoTo256()
      && CompactOf(Meaning(c), false) == c
  {
    hide BitLen, Quot, Pow2, Scaled, CompactWord, Meaning, Truncated, CompactOf;
    MeaningOfCompact(x);
    TruncatedBelow(x);
    PartsOf(x);
    CompactStable(x);
    CompactFits(x);
  }

  lemma CompactFits(x: nat)
    requires x < TwoTo256()
    ensures CompactSize(x) <= 33 && CompactOf(x, false) < BASE && CompactOf(x, true) < BASE
  {
    hide Quot, Pow2, Scaled, CompactWord, BitLen;
    WordBound(x);
    LengthBounds(x);
    if BitLen(x) > 256 { Pow2Le(256, BitLen(x) - 1); }
  }

  // ----- computing it

  /** The two low limbs, 64 bits. */
  method GetLow64(t: BaseUint) returns (low: nat)
    requires t.Valid()
    ensures low == Rem(t.Value(), TWO64)
  {
    low := t.pn[0] + t.pn[1] * BASE;
    LowLimbs(t.pn[..]);
  }

  lemma LowLimbs(s: seq<nat>)
    requires |s| >= 2 && IsLimbs(s)
    ensures Rem(Val(s), TWO64) == s[0] + s[1] * BASE
  {
    hide Pow, Val;
    ValConcat(s[..2], s[2..]);
    assert s[..2] + s[2..] == s;
    ValSnoc(s, 1);
    ValSnoc(s, 0);
    ValNone(s);
    PowNext(0);
    PowNext(1);
    assert Pow(2) * Val(s[2..]) == Val(s[2..]) * TWO64;
    DivUnique(Val(s), TWO64, Val(s[2..]), s[0] + s[1] * BASE);
  }

  /** The mantissa before the sign bit is cleared. */
  ghost function Raw(x: nat, size: nat): nat {
    if size <= 3 then Scaled(x, 8 * (3 - size)) else Quot(x, Pow2(8 * (size - 3)))
  }

  lemma RawWord(x: nat, n: nat)
    requires n == BitLen(x) && n <= 256
    ensures var size := (n + 7) / 8;
      var raw := Raw(x, size);
      && raw < BYTE3 && (raw / MANTISSA % 2 == 1 <==> n > 0 && n % 8 == 0)
      && CompactWord(x) == (if raw / MANTISSA % 2 == 1 then raw / 256 else raw)
      && CompactSize(x) == (if raw / MANTISSA % 2 == 1 then size + 1 else size)
  {
    hide Quot, Pow2, Scaled, BitLen;
    Pow2Values();
    LengthBounds(x);
    var size := (n + 7) / 8;
    if x == 0 {
      ZeroLength();
      ScaledLarge(0, 24);
    } else if size <= 3 {
      RawScaled(x, n, 8 * (3 - size));
      ScaledDown(x, 8 * (3 - size));
    } else {
      RawQuot(x, n, 8 * (size - 3));
    }
  }

  lemma ZeroLength()
    ensures BitLen(0) == 0
  {
  }

  lemma TopBit(raw: nat, m: nat)
    requires raw < Pow2(m) && 16 <= m <= 24 && (m == 24 ==> Pow2(23) <= raw)
    ensures raw < BYTE3 && (raw / MANTISSA % 2 == 1 <==> m == 24)
  {
    hide Pow2;
    Pow2Values();
    Pow2Le(m, 24);
    if m < 24 { Pow2Le(m, 23); }
  }

  lemma RawScaled(x: nat, n: nat, e: nat)
    requires n > 0 && Pow2(n - 1) <= x < Pow2(n) && 17 <= n + e <= 24
    ensures Scaled(x, e) < BYTE3 && (Scaled(x, e) / MANTISSA % 2 == 1 <==> n + e == 24)
  {
    hide Pow2, Scaled;
    ScaledBound(x, n, e);
    ScaledLess(x, e, 23);
    TopBit(Scaled(x, e), n + e);
  }

  lemma ScaledDown(x: nat, e: nat)
    ensures e >= 8 ==> Scaled(x, e) / 256 == Scaled(x, e - 8)
    ensures e == 0 ==> Scaled(x, e) / 256 == Quot(x, Pow2(8))
  {
    Pow2Values();
    if e >= 8 {
      Pow2Add(8, e - 8);
      assert x * (256 * Pow2(e - 8)) == x * Pow2(e - 8) * 256;
    } else if e == 0 {
      assert Pow2(0) == 1;
    }
  }

  lemma RawQuot(x: nat, n: nat, e: nat)
    requires n > 0 && Pow2(n - 1) <= x < Pow2(n) && 17 <= n - e <= 24
    ensures Quot(x, Pow2(e)) < BYTE3 && (Quot(x, Pow2(e)) / MANTISSA % 2 == 1 <==> n - e == 24)
    ensures Quot(x, Pow2(e)) / 256 == Quot(x, Pow2(e + 8))
  {
    hide Pow2, Quot;
    Pow2Values();
    QuotBound(x, n, e);
    QuotRem(x, Pow2(e));
    var q, r := Quot(x, Pow2(e)), Rem(x, Pow2(e));
    if n - e == 24 {
      Pow2Add(23, e);
      if q < Pow2(23) { MulStep(q, Pow2(23), Pow2(e)); }
    }
    TopBit(q, n - e);
    Pow2Add(8, e);
    QuotOfQuot(x, Pow2(e), q, r);
  }

  lemma QuotOfQuot(x: nat, p: nat, q: nat, r: nat)
    requires x == q * p + r && r < p
    ensures q / 256 == Quot(x, 256 * p)
  {
    hide Quot;
    var c, d := q / 256, q % 256;
    assert q == c * 256 + d;
    MulAdd(c * 256, d, p);
    assert c * 256 * p == c * (256 * p);
    MulStep(d, 256, p);
    QuotUnique(x, 256 * p, c, d * p + r);
  }

  method RawMantissa(t: BaseUint, n: nat) returns (raw: nat)
    requires t.Valid() && t.Value() < Pow2(n) && Raw(t.Value(), (n + 7) / 8) < BYTE3
    ensures raw == Raw(t.Value(), (n + 7) / 8)
  {
    hide Val, Pow, Pow2, Scaled, Quot, Rem, Shl;
    ghost var x := t.Value();
    var nSize := (n + 7) / 8;
    if nSize <= 3 {
      var low := GetLow64(t);
      ShortLow(x, n, nSize);
      raw := Shl(low, 8 * (3 - nSize));
    } else {
      var bn := new BaseUint.Copy(t);
      bn.ShiftRight(8 * (nSize - 3));
      LongLow(bn.Value());
      var low := GetLow64(bn);
      raw := low % BASE;
    }
  }

  /** Finds the compact form; neither assertion of it can fail. */
  method GetCompact(t: BaseUint, fNegative: bool) returns (nCompact: nat)
    requires t.Valid() && t.pn.Length == WIDTH
    ensures nCompact == CompactOf(t.Value(), fNegative) < BASE
  {
    hide Val, Pow, Pow2, Raw, BitLen, CompactSize, CompactWord, BitOr;
    ghost var x := t.Value();
    ValBound(t.pn[..]);
    var n := t.Bits();
    BitLenUnique(x, n);
    RawWord(x, n);
    CompactFits(x);
    WordBound(x);
    var nSize := (n + 7) / 8;
    nCompact := RawMantissa(t, n);
    if nCompact / MANTISSA % 2 == 1 {
      nCompact := nCompact / 256;
      nSize := nSize + 1;
    }
    assert nCompact < MANTISSA;
    assert nSize < 256;
    OrParts(nSize, nCompact);
    nCompact := BitOr(nCompact, nSize * BYTE3);
    if fNegative && nCompact % MANTISSA != 0 {
      nCompact := BitOr(nCompact, MANTISSA);
    }
  }

  lemma LongLow(raw: nat)
    requires raw < BYTE3
    ensures Rem(raw, TWO64) == raw
  {
  }

  lemma ShortLow(x: nat, n: nat, size: nat)
    requires x < Pow2(n) && size == (n + 7) / 8 <= 3 && Scaled(x, 8 * (3 - size)) < BYTE3
    ensures Rem(x, TWO64) == x && Shl(x, 8 * (3 - size)) == Scaled(x, 8 * (3 - size))
  {
    hide Quot, Rem;
    Pow2Values();
    Pow2Le(n, 24);
    LongLow(x);
    QuotUnique(Scaled(x, 8 * (3 - size)), BASE, 0, Scaled(x, 8 * (3 - size)));
  }

  lemma OrParts(size: nat, word: nat)
    requires word < MANTISSA
    ensures BitOr(word, size * BYTE3) == size * BYTE3 + word
    ensures (size * BYTE3 + word) % MANTISSA == word
    ensures BitOr(size * BYTE3 + word, MANTISSA) == size * BYTE3 + word + MANTISSA
  {
    hide Pow2;
    Pow2Values();
    OrDisjoint(size, 24, word);
    OrSwap(word, size * BYTE3);
    OrAbove(2 * size, 1, 23, word);
    OrOne(size);
    DivUnique(size * BYTE3 + word, MANTISSA, 2 * size, word);
  }

  lemma OrOne(size: nat)
    ensures BitOr(2 * size, 1) == 2 * size + 1
  {
    OrZero(size);
    assert BitOr(2 * size, 1) == 2 * BitOr(size, 0) + 1;
  }

  // ----- expected work

  /** How many hashes a target takes on average: 2^256 over one more than the target. */
  method GetNumHashes(nBits: nat, minedOtherwise: bool) returns (r: BaseUint)
    requires nBits < BASE
    ensures r.Valid() && r.pn.Length == WIDTH
    ensures var t := Meaning(nBits);
      r.Value() == if t == 0 || t >= TwoTo256() || SignOf(nBits) || minedOtherwise then 0 else TwoTo256() / (t + 1)
  {
    hide Val, Pow, Pow2, Meaning, SignOf;
    var target := new BaseUint(WIDTH);
    var negative, overflow := SetCompact(target, nBits);
    var zero := new BaseUint(WIDTH);
    var order := target.CompareTo(zero);
    ghost var t := Meaning(nBits);
    if t < TwoTo256() { DivUnique(t, TwoTo256(), 0, t); }
    if negative || overflow || order == 0 || minedOtherwise {
      return zero;
    }
    NotAllOnes(nBits);
    r := Work(target);
  }

  /** The complement over one more than the target, and one; no division by zero. */
  method Work(target: BaseUint) returns (r: BaseUint)
    requires target.Valid() && target.pn.Length == WIDTH && 0 < target.Value() && target.Value() + 1 < TwoTo256()
    ensures r.Valid() && r.pn.Length == WIDTH && r.Value() == TwoTo256() / (target.Value() + 1)
  {
    hide Val, Pow, Pow2;
    ghost var t := target.Value();
    var one := new BaseUint(WIDTH);
    one.Assign(1);
    var next := new BaseUint.Copy(target);
    next.Add(one);
    DivUnique(t + 1, TwoTo256(), 0, t + 1);
    r := target.Not();
    var ok := r.Divide(next);
    assert ok;
    WorkIs(t, TwoTo256());
    r.Add(one);
  }

  /** A number in compact form never has all bits set, so one can be added. */
  lemma NotAllOnes(nBits: nat)
    requires Meaning(nBits) < TwoTo256()
    ensures Meaning(nBits) + 1 < TwoTo256()
  {
    hide Quot, Pow2, Scaled;
    var size, word := SizeOf(nBits), WordOf(nBits);
    if size <= 3 {
      ShortMeaning(nBits);
    } else {
      PowerEven(8 * (size - 3));
      PowerEven(256);
      ScaledIs(word, 8 * (size - 3));
      EvenProduct(word, Pow2(8 * (size - 3)));
    }
  }

  lemma PowerEven(e: nat)
    requires e > 0
    ensures Pow2(e) % 2 == 0
  {
    hide Pow2;
    Pow2Next(e - 1);
  }

  lemma EvenProduct(a: nat, b: nat)
    requires b % 2 == 0
    ensures a * b % 2 == 0
  {
    assert a * b == a * (b / 2) * 2;
  }

  lemma WorkIs(t: nat, m: nat)
    requires 0 < t && t + 1 < m
    ensures (m - 1 - t) / (t + 1) + 1 == m / (t + 1) < m && (m / (t + 1)) % m == m / (t + 1)
  {
    var q, r := (m - 1 - t) / (t + 1), (m - 1 - t) % (t + 1);
    DivMod(m - 1 - t, t + 1);
    DivNat(m - 1 - t, t + 1);
    MulAdd(q, 1, t + 1);
    DivUnique(m, t + 1, q + 1, r);
    MulLe(2, t + 1, q + 1);
    assert (q + 1) * (t + 1) == (t + 1) * (q + 1);
    DivUnique(q + 1, m, 0, q + 1);
  }
}
