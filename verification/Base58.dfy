/**
 Numbers written in base 58 and in base 256: bytes to text and back.  The digits of one base are
 taken one at a time, and a buffer of digits of the other is multiplied and added to in place.
 */
module Base58 {
  import opened Options
  import opened Arithmetic

  // ----- powers

  function Pow(b: nat, e: nat): nat {
    if e == 0 then 1 else
    MulNat(b, Pow(b, e - 1));
    b * Pow(b, e - 1)
  }

  lemma {:induction false} PowPositive(b: nat, e: nat)
    requires b > 0
    ensures Pow(b, e) > 0
  {
    if e > 0 {
      PowPositive(b, e - 1);
      MulLe(1, b, Pow(b, e - 1));
    }
  }

  lemma {:induction false} PowAdd(b: nat, i: nat, j: nat)
    ensures Pow(b, i + j) == Pow(b, i) * Pow(b, j)
    decreases i
  {
    if i > 0 {
      PowAdd(b, i - 1, j);
      assert b * (Pow(b, i - 1) * Pow(b, j)) == b * Pow(b, i - 1) * Pow(b, j);
    }
  }

  lemma {:induction false} PowTimes(b: nat, i: nat, j: nat)
    ensures Pow(b, i * j) == Pow(Pow(b, i), j)
    decreases j
  {
    hide Pow;
    if j > 0 {
      PowTimes(b, i, j - 1);
      assert i * j == i + i * (j - 1);
      PowAdd(b, i, i * (j - 1));
      PowNext(Pow(b, i), j - 1);
    } else {
      PowNone(b);
      PowNone(Pow(b, i));
    }
  }

  lemma PowNext(b: nat, e: nat)
    ensures Pow(b, e + 1) == b * Pow(b, e)
  {
  }

  lemma PowNone(b: nat)
    ensures Pow(b, 0) == 1
  {
  }

  lemma {:induction false} PowMonotone(a: nat, b: nat, e: nat)
    requires a <= b
    ensures Pow(a, e) <= Pow(b, e)
  {
    if e > 0 {
      PowMonotone(a, b, e - 1);
      MulLe(a, b, Pow(a, e - 1));
      MulLe(Pow(a, e - 1), Pow(b, e - 1), b);
      assert b * Pow(a, e - 1) == Pow(a, e - 1) * b;
    }
  }

  lemma {:induction false} PowStrict(a: nat, b: nat, e: nat)
    requires 0 < a < b && e > 0
    ensures Pow(a, e) < Pow(b, e)
  {
    PowMonotone(a, b, e - 1);
    PowPositive(a, e - 1);
    MulStep(a, b, Pow(a, e - 1));
    MulLe(Pow(a, e - 1), Pow(b, e - 1), b);
    assert b * Pow(a, e - 1) == Pow(a, e - 1) * b;
  }

  lemma {:induction false} PowLonger(b: nat, i: nat, j: nat)
    requires b > 0 && i <= j
    ensures Pow(b, i) <= Pow(b, j)
  {
    PowAdd(b, i, j - i);
    PowPositive(b, j - i);
    MulLe(1, Pow(b, j - i), Pow(b, i));
    assert Pow(b, j - i) * Pow(b, i) == Pow(b, i) * Pow(b, j - i);
  }

  /** Comparing powers by a common exponent. */
  lemma PowCompare(a: nat, i: nat, b: nat, j: nat, k: nat)
    requires k > 0 && a > 0 && b > 0 && Pow(b, j * k) <= Pow(a, i * k)
    ensures Pow(b, j) <= Pow(a, i)
  {
    hide Pow;
    PowTimes(a, i, k);
    PowTimes(b, j, k);
    PowPositive(a, i);
    if Pow(a, i) < Pow(b, j) { PowStrict(Pow(a, i), Pow(b, j), k); }
  }

  /** 138 digits of base 58 for 100 bytes, rounded down, and one more, are enough. */
  lemma EnoughDigits(n: nat)
    ensures Pow(256, n) <= Pow(58, n * 138 / 100 + 1)
  {
    hide Pow;
    var m := n * 138 / 100 + 1;
    assert 11 * n <= 8 * m;
    Pow58To11();
    PowTimes(256, 8, n);
    PowTimes(58, 11, n);
    PowMonotone(Pow(256, 8), Pow(58, 11), n);
    PowLonger(58, 11 * n, 8 * m);
    assert n * 8 == 8 * n && m * 8 == 8 * m;
    PowCompare(58, m, 256, n, 8);
  }

  /** 733 bytes for 1000 digits, rounded down, and one more, are enough. */
  lemma EnoughBytes(n: nat)
    ensures Pow(58, n) <= Pow(256, n * 733 / 1000 + 1)
  {
    hide Pow;
    var m := n * 733 / 1000 + 1;
    assert 52 * n <= 71 * m;
    Pow58To71();
    PowTimes(58, 71, n);
    PowTimes(256, 52, n);
    PowMonotone(Pow(58, 71), Pow(256, 52), n);
    PowLonger(256, 52 * n, 71 * m);
    assert n * 71 == 71 * n && m * 71 == 71 * m;
    PowCompare(256, m, 58, n, 71);
  }

  lemma Pow58Small()
    ensures Pow(58, 1) == 58 && Pow(58, 2) == 3364 && Pow(58, 4) == 11316496 && Pow(58, 8) == 128063081718016
  {
    hide Pow;
    PowNext(58, 0);
    PowNone(58);
    PowAdd(58, 1, 1);
    PowAdd(58, 2, 2);
    PowAdd(58, 4, 4);
  }

  lemma Pow256Small()
    ensures Pow(256, 1) == 256 && Pow(256, 4) == 4294967296 && Pow(256, 8) == 18446744073709551616
  {
    hide Pow;
    PowNext(256, 0);
    PowNone(256);
    PowAdd(256, 1, 1);
    PowAdd(256, 2, 2);
    PowAdd(256, 4, 4);
  }

  lemma Pow58To11()
    ensures Pow(256, 8) <= Pow(58, 11)
  {
    hide Pow;
    Pow58Small();
    Pow256Small();
    PowAdd(58, 8, 2);
    PowAdd(58, 10, 1);
  }

  lemma Pow58To71()
    ensures Pow(58, 71) <= Pow(256, 52)
  {
    hide Pow;
    Pow58Small();
    PowAdd(58, 8, 8);
    assert Pow(58, 16) == 16400152899115243850138976256;
    PowAdd(58, 16, 16);
    assert Pow(58, 32) == 268965015114358137726910587140455987105619365599731777536;
    PowAdd(58, 32, 32);
    assert Pow(58, 64) ==
      72342179355466901471258927612150153907721848234316445933056526044582001260898145151856420451025374266490194231296;
    PowAdd(58, 4, 2);
    PowAdd(58, 6, 1);
    assert Pow(58, 7) == 2207984167552;
    PowAdd(58, 64, 7);
    Pow256Small();
    PowAdd(256, 8, 8);
    assert Pow(256, 16) == 340282366920938463463374607431768211456;
    PowAdd(256, 16, 16);
    assert Pow(256, 32) == 115792089237316195423570985008687907853269984665640564039457584007913129639936;
    PowAdd(256, 32, 16);
    PowAdd(256, 48, 4);
  }

  // ----- numerals, most significant digit first

  ghost predicate Digits(s: seq<nat>, base: nat) { forall i :: 0 <= i < |s| ==> s[i] < base }

  function Num(s: seq<nat>, base: nat): nat {
    if s == [] then 0 else
    MulNat(Num(s[..|s| - 1], base), base);
    Num(s[..|s| - 1], base) * base + s[|s| - 1]
  }

  /** The numeral without leading zeros. */
  function Canon(v: nat, base: nat): seq<nat>
    requires base > 1
  {
    if v == 0 then [] else
    QuotSmaller(v, base);
    Canon(Quot(v, base), base) + [Rem(v, base)]
  }

  lemma QuotSmaller(v: nat, base: nat)
    requires base > 1 && v > 0
    ensures Quot(v, base) < v
  {
    hide Quot;
    QuotRem(v, base);
    assert base * v == v * base;
    MulLe(2, base, v);
    if Quot(v, base) >= v { MulLe(v, Quot(v, base), base); }
  }

  function Zeros(n: nat): seq<nat> { seq(n, i => 0) }

  /** How many zeros a numeral starts with. */
  function Leading(s: seq<nat>): (n: nat)
    ensures n <= |s|
  {
    if s == [] || s[0] != 0 then 0 else 1 + Leading(s[1..])
  }

  lemma LeadingNext(s: seq<nat>)
    requires s != [] && s[0] == 0
    ensures Leading(s) == 1 + Leading(s[1..])
  {
  }

  lemma {:induction false} LeadingAre(s: seq<nat>)
    ensures s == Zeros(Leading(s)) + s[Leading(s)..] && (Leading(s) < |s| ==> s[Leading(s)] != 0)
  {
    if s != [] && s[0] == 0 {
      hide Leading;
      LeadingAre(s[1..]);
      LeadingNext(s);
      var n := Leading(s[1..]);
      forall k | 0 <= k < n + 1 ensures s[k] == 0 {
        if k > 0 { assert s[1..][k - 1] == (Zeros(n) + s[1..][n..])[k - 1]; }
      }
      ZerosInFront(s, n + 1);
      assert n < |s[1..]| ==> s[1..][n] == s[n + 1];
    }
  }

  lemma {:induction false} NumZeros(n: nat, s: seq<nat>, base: nat)
    ensures Num(Zeros(n) + s, base) == Num(s, base)
    decreases |s| + n
  {
    var t := Zeros(n) + s;
    if s != [] {
      NumZeros(n, s[..|s| - 1], base);
      assert t[..|t| - 1] == Zeros(n) + s[..|s| - 1];
    } else if n > 0 {
      NumZeros(n - 1, s, base);
      assert t[..|t| - 1] == Zeros(n - 1) + s;
    }
  }

  /** A numeral that does not start with zero is the canonical one of its number. */
  lemma {:induction false} CanonOfNum(s: seq<nat>, base: nat)
    requires base > 1 && Digits(s, base) && (s != [] ==> s[0] != 0)
    ensures Canon(Num(s, base), base) == s && (s != [] ==> Num(s, base) > 0)
  {
    hide Quot, Rem;
    if s != [] {
      var n := |s| - 1;
      var front, d := s[..n], s[n];
      CanonOfNum(front, base);
      if n > 0 { MulLe(1, Num(front, base), base); }
      QuotUnique(Num(s, base), base, Num(front, base), d);
      assert s == front + [d];
    }
  }

  lemma {:induction false} NumOfCanon(v: nat, base: nat)
    requires base > 1
    ensures Num(Canon(v, base), base) == v && Digits(Canon(v, base), base)
    ensures Canon(v, base) != [] ==> Canon(v, base)[0] != 0
  {
    hide Quot, Rem;
    if v > 0 {
      QuotSmaller(v, base);
      NumOfCanon(Quot(v, base), base);
      QuotRem(v, base);
      var c := Canon(v, base);
      assert c[..|c| - 1] == Canon(Quot(v, base), base);
    }
  }

  /** A numeral of one base in another: as many leading zeros, and the same number. */
  function Rebase(s: seq<nat>, from: nat, into: nat): seq<nat>
    requires into > 1
  {
    Zeros(Leading(s)) + Canon(Num(s, from), into)
  }

  lemma LeadingIs(n: nat, s: seq<nat>)
    requires s != [] ==> s[0] != 0
    ensures Leading(Zeros(n) + s) == n && (Zeros(n) + s)[n..] == s
    decreases n
  {
    if n > 0 {
      LeadingIs(n - 1, s);
      assert (Zeros(n) + s)[1..] == Zeros(n - 1) + s;
    }
  }

  /** Going to another base and back changes nothing. */
  lemma RebaseBack(s: seq<nat>, from: nat, into: nat)
    requires from > 1 && into > 1 && Digits(s, from)
    ensures Digits(Rebase(s, from, into), into) && Rebase(Rebase(s, from, into), into, from) == s
  {
    hide Num, Canon, Leading, Zeros;
    var n, v := Leading(s), Num(s, from);
    LeadingAre(s);
    var rest := s[n..];
    NumZeros(n, rest, from);
    CanonOfNum(rest, from);
    NumOfCanon(v, into);
    var c := Canon(v, into);
    LeadingIs(n, c);
    NumZeros(n, c, into);
    ZerosAre(n);
  }

  lemma ZerosAre(n: nat)
    ensures |Zeros(n)| == n && forall i :: 0 <= i < n ==> Zeros(n)[i] == 0
  {
  }

  lemma {:induction false} NumBound(s: seq<nat>, base: nat)
    requires base > 0 && Digits(s, base)
    ensures Num(s, base) < Pow(base, |s|)
  {
    hide Pow;
    if s == [] { PowNone(base); } else {
      var n := |s| - 1;
      NumBound(s[..n], base);
      PowNext(base, n);
      MulStep(Num(s[..n], base), Pow(base, n), base);
      assert Pow(base, n) * base == base * Pow(base, n);
    }
  }

  lemma {:induction false} NumSplit(a: seq<nat>, b: seq<nat>, base: nat)
    ensures Num(a + b, base) == Num(a, base) * Pow(base, |b|) + Num(b, base)
    decreases |b|
  {
    hide Pow;
    if b == [] {
      assert a + b == a;
      PowNone(base);
    } else {
      var n := |b| - 1;
      NumSplit(a, b[..n], base);
      assert (a + b)[..|a| + n] == a + b[..n];
      PowNext(base, n);
      SplitArithmetic(Num(a, base), Pow(base, n), Num(b[..n], base), base, b[n]);
    }
  }

  lemma SplitArithmetic(a: nat, p: nat, b: nat, base: nat, d: nat)
    ensures (a * p + b) * base + d == a * (base * p) + (b * base + d)
  {
    MulAdd(a * p, b, base);
    assert a * p * base == a * (base * p);
  }

  // ----- multiplying a buffer in place

  /** Multiplies the number in the buffer, of which only the last `length` digits matter, and adds. */
  method MultiplyAdd(buffer: array<nat>, length: nat, base: nat, factor: nat, digit: nat) returns (next: nat)
    requires base > 1 && Digits(buffer[..], base) && length <= buffer.Length
    requires forall i :: 0 <= i < buffer.Length - length ==> buffer[i] == 0
    requires Num(buffer[..], base) * factor + digit < Pow(base, buffer.Length)
    modifies buffer
    ensures Digits(buffer[..], base) && next <= buffer.Length
    ensures forall i :: 0 <= i < buffer.Length - next ==> buffer[i] == 0
    ensures Num(buffer[..], base) == old(Num(buffer[..], base)) * factor + digit
  {
    hide Num, Pow, Carried, Quot, Rem;
    ghost var x := buffer[..];
    var carry: nat, i, n := digit, 0, buffer.Length;
    CarriedNone(x, base, factor, digit);
    assert buffer[n..] == [];
    while (carry != 0 || i < length) && i < n
      invariant 0 <= i <= n == |x| && Digits(buffer[..], base) && buffer[..n - i] == x[..n - i]
      invariant Carried(x, buffer[n - i..], carry, base, factor, digit)
      decreases n - i
    {
      ghost var low := buffer[n - i..];
      var at := n - 1 - i;
      assert buffer[at] == x[at] by { assert buffer[..n - i][at] == x[..n - i][at]; }
      MulNat(factor, buffer[at]);
      var sum: nat := carry + factor * buffer[at];
      QuotRem(sum, base);
      CarriedMore(x, low, carry, base, factor, digit, sum);
      buffer[at] := Rem(sum, base);
      carry := Quot(sum, base);
      assert buffer[at..] == [buffer[at]] + low;
      assert buffer[..at] == x[..at];
      i := i + 1;
    }
    CarriedAll(x, buffer[..], carry, i, length, base, factor, digit);
    assert carry == 0;
    next := i;
  }

  /** The digits done, with the carry, are the product of the digits they replace, plus what is added. */
  ghost predicate Carried(x: seq<nat>, low: seq<nat>, carry: nat, base: nat, factor: nat, digit: nat) {
    |low| <= |x| && Num(low, base) + carry * Pow(base, |low|) == factor * Num(x[|x| - |low|..], base) + digit
  }

  lemma CarriedNone(x: seq<nat>, base: nat, factor: nat, digit: nat)
    ensures Carried(x, [], digit, base, factor, digit)
  {
    assert x[|x| - 0..] == [];
  }

  lemma CarriedMore(x: seq<nat>, low: seq<nat>, carry: nat, base: nat, factor: nat, digit: nat, sum: nat)
    requires base > 1 && Carried(x, low, carry, base, factor, digit) && |low| < |x|
    requires sum == carry + factor * x[|x| - 1 - |low|]
    ensures Carried(x, [Rem(sum, base)] + low, Quot(sum, base), base, factor, digit)
  {
    hide Num, Pow, Quot, Rem;
    var k, at := |low|, |x| - 1 - |low|;
    QuotRem(sum, base);
    assert x[at..] == [x[at]] + x[|x| - k..];
    NumSplit([x[at]], x[|x| - k..], base);
    NumSplit([Rem(sum, base)], low, base);
    NumOne(x[at], base);
    NumOne(Rem(sum, base), base);
    PowNext(base, k);
    CarryArithmetic(Num(low, base), carry, Pow(base, k), factor, Num(x[|x| - k..], base), x[at], digit, sum,
                    Quot(sum, base), Rem(sum, base), base);
  }

  lemma NumOne(d: nat, base: nat)
    ensures Num([d], base) == d
  {
    assert [d][..0] == [];
  }

  lemma CarryArithmetic(v: nat, carry: nat, p: nat, factor: nat, w: nat, x: nat, digit: nat, sum: nat, q: nat,
                        r: nat, base: nat)
    requires v + carry * p == factor * w + digit && sum == carry + factor * x && sum == q * base + r
    ensures r * p + v + q * (base * p) == factor * (x * p + w) + digit
  {
    assert q * (base * p) == q * base * p;
    MulAdd(q * base, r, p);
    MulAdd(carry, factor * x, p);
    assert factor * (x * p + w) == factor * x * p + factor * w;
  }

  lemma CarriedAll(x: seq<nat>, y: seq<nat>, carry: nat, i: nat, length: nat, base: nat, factor: nat, digit: nat)
    requires base > 1 && i <= |x| == |y| && length <= |x|
    requires forall j :: 0 <= j < |x| - length ==> x[j] == 0
    requires y[..|x| - i] == x[..|x| - i] && Carried(x, y[|x| - i..], carry, base, factor, digit)
    requires (carry == 0 && i >= length) || i == |x|
    requires Num(x, base) * factor + digit < Pow(base, |x|)
    ensures carry == 0 && Num(y, base) == Num(x, base) * factor + digit
    ensures forall j :: 0 <= j < |y| - i ==> y[j] == 0
  {
    hide Num, Pow, Carried;
    var n := |x|;
    if i == n {
      assert y[n - i..] == y;
      CarriedFull(x, y, carry, base, factor, digit);
    } else {
      forall j | 0 <= j < n - i ensures y[j] == 0 && x[j] == 0 { assert y[..n - i][j] == x[..n - i][j]; }
      CarriedPart(n - i, x, y, base, factor, digit);
    }
  }

  lemma ZerosInFront(x: seq<nat>, z: nat)
    requires z <= |x| && forall j :: 0 <= j < z ==> x[j] == 0
    ensures x == Zeros(z) + x[z..]
  {
  }

  lemma CarriedFull(x: seq<nat>, y: seq<nat>, carry: nat, base: nat, factor: nat, digit: nat)
    requires |x| == |y| && Carried(x, y, carry, base, factor, digit) && Num(x, base) * factor + digit < Pow(base, |x|)
    ensures carry == 0 && Num(y, base) == Num(x, base) * factor + digit
  {
    hide Num, Pow;
    assert x[|x| - |y|..] == x;
    FullArithmetic(Num(y, base), carry, Pow(base, |y|), factor, Num(x, base), digit);
  }

  lemma FullArithmetic(v: nat, carry: nat, p: nat, factor: nat, w: nat, digit: nat)
    requires v + carry * p == factor * w + digit && w * factor + digit < p
    ensures carry == 0 && v == w * factor + digit
  {
    assert factor * w == w * factor;
    if carry > 0 { MulLe(1, carry, p); }
  }

  lemma CarriedPart(z: nat, x: seq<nat>, y: seq<nat>, base: nat, factor: nat, digit: nat)
    requires z <= |x| == |y| && forall j :: 0 <= j < z ==> x[j] == 0 && y[j] == 0
    requires Carried(x, y[z..], 0, base, factor, digit)
    ensures Num(y, base) == Num(x, base) * factor + digit
  {
    hide Num, Pow;
    ZerosInFront(x, z);
    ZerosInFront(y, z);
    NumZeros(z, x[z..], base);
    NumZeros(z, y[z..], base);
    assert x[|x| - |y[z..]|..] == x[z..];
    PartArithmetic(Num(y[z..], base), Pow(base, |y| - z), factor, Num(x[z..], base), digit);
  }

  lemma PartArithmetic(v: nat, p: nat, factor: nat, w: nat, digit: nat)
    requires v + 0 * p == factor * w + digit
    ensures v == w * factor + digit
  {
  }

  // ----- text

  const ALPHABET: string :=
    "123456789" + "ABCDEFGH" + "JKLMN" + "PQRSTUVWXYZ" + "abcdefghijk" + "mnopqrstuvwxyz"

  /** The digit a character stands for, or -1. */
  function DigitOf(c: char): (d: int)
    ensures -1 <= d < 58
  {
    if '1' <= c <= '9' then c as int - '1' as int
    else if 'A' <= c <= 'H' then c as int - 'A' as int + 9
    else if 'J' <= c <= 'N' then c as int - 'J' as int + 17
    else if 'P' <= c <= 'Z' then c as int - 'P' as int + 22
    else if 'a' <= c <= 'k' then c as int - 'a' as int + 33
    else if 'm' <= c <= 'z' then c as int - 'm' as int + 44
    else -1
  }

  /** The alphabet and the table of digits are inverse to each other. */
  lemma AlphabetInverse()
    ensures |ALPHABET| == 58 && forall d :: 0 <= d < 58 ==> DigitOf(ALPHABET[d]) == d
    ensures forall c :: DigitOf(c) >= 0 ==> ALPHABET[DigitOf(c)] == c
  {
    assert Follow("123456789", '1');
    assert Follow("ABCDEFGH", 'A');
    assert Follow("JKLMN", 'J');
    assert Follow("PQRSTUVWXYZ", 'P');
    assert Follow("abcdefghijk", 'a');
    assert Follow("mnopqrstuvwxyz", 'm');
    Joined("123456789", "ABCDEFGH", "JKLMN", "PQRSTUVWXYZ", "abcdefghijk", "mnopqrstuvwxyz");
  }

  lemma Joined(a: string, b: string, c: string, d: string, e: string, f: string)
    requires Follow(a, '1') && Follow(b, 'A') && Follow(c, 'J') && Follow(d, 'P') && Follow(e, 'a') && Follow(f, 'm')
    requires |a| == 9 && |b| == 8 && |c| == 5 && |d| == 11 && |e| == 11 && |f| == 14
    ensures var all := a + b + c + d + e + f;
      (forall i :: 0 <= i < 58 ==> DigitOf(all[i]) == i) && (forall x :: DigitOf(x) >= 0 ==> all[DigitOf(x)] == x)
  {
  }

  /** Consecutive characters. */
  ghost predicate Follow(s: string, first: char) {
    forall i :: 0 <= i < |s| ==> s[i] as int == first as int + i
  }

  predicate IsSpace(c: char) { c == ' ' || '\t' <= c <= '\r' }

  function TextOf(digits: seq<nat>): string
    requires Digits(digits, 58)
  {
    AlphabetInverse();
    seq(|digits|, i requires 0 <= i < |digits| => ALPHABET[digits[i]])
  }

  function Encoded(bytes: seq<nat>): string
    requires Digits(bytes, 256)
  {
    RebaseBack(bytes, 256, 58);
    TextOf(Rebase(bytes, 256, 58))
  }

  /** The buffer holds the number of the digits taken so far. */
  lemma RoomFor(s: seq<nat>, from: nat, p: nat, base: nat, into: nat, size: nat)
    requires base > 1 && Digits(s, base) && from <= p < |s| && Pow(base, |s| - from) <= Pow(into, size)
    ensures Num(s[from..p + 1], base) == Num(s[from..p], base) * base + s[p]
    ensures Num(s[from..p + 1], base) < Pow(into, size)
  {
    hide Pow;
    var t := s[from..p + 1];
    assert t[..|t| - 1] == s[from..p];
    NumBound(t, base);
    PowLonger(base, |t|, |s| - from);
  }

  /** The place of the first digit that is not zero. */
  method SkipZeros(buffer: array<nat>, start: nat, base: nat) returns (it: nat)
    requires base > 1 && start <= buffer.Length && Digits(buffer[..], base)
    requires forall i :: 0 <= i < start ==> buffer[i] == 0
    ensures it <= buffer.Length && buffer[it..] == Canon(Num(buffer[..], base), base)
  {
    hide Num, Canon;
    it := start;
    while it < buffer.Length && buffer[it] == 0
      invariant start <= it <= buffer.Length && forall i :: 0 <= i < it ==> buffer[i] == 0
    {
      it := it + 1;
    }
    assert buffer[..] == Zeros(it) + buffer[it..];
    NumZeros(it, buffer[it..], base);
    CanonOfNum(buffer[it..], base);
  }

  /** The digits of base 58 of the bytes from a place on. */
  method Convert(bytes: seq<nat>, from: nat) returns (digits: seq<nat>)
    requires Digits(bytes, 256) && from <= |bytes|
    ensures digits == Canon(Num(bytes[from..], 256), 58)
  {
    hide Num, Canon, Pow;
    var p, n := from, |bytes|;
    var size := (n - from) * 138 / 100 + 1;
    EnoughDigits(n - from);
    var buffer := new nat[size](i => 0);
    NumNone(buffer[..], 58);
    var length: nat := 0;
    assert bytes[from..from] == [];
    NumNone([], 256);
    while p < n
      invariant from <= p <= n && length <= size && Digits(buffer[..], 58)
      invariant forall i :: 0 <= i < size - length ==> buffer[i] == 0
      invariant Num(buffer[..], 58) == Num(bytes[from..p], 256)
    {
      RoomFor(bytes, from, p, 256, 58, size);
      length := MultiplyAdd(buffer, length, 58, 256, bytes[p]);
      p := p + 1;
    }
    var it := SkipZeros(buffer, size - length, 58);
    assert bytes[from..n] == bytes[from..];
    digits := buffer[it..];
  }

  method EncodeBase58(bytes: seq<nat>) returns (text: string)
    requires Digits(bytes, 256)
    ensures text == Encoded(bytes)
  {
    hide Num, Canon, Pow, ALPHABET, DigitOf;
    var zeroes := CountZeros(bytes);
    var digits := Convert(bytes, zeroes);
    LeadingAre(bytes);
    NumZeros(zeroes, bytes[zeroes..], 256);
    assert Zeros(zeroes) + digits == Rebase(bytes, 256, 58);
    RebaseBack(bytes, 256, 58);
    AlphabetInverse();
    AlphabetFirst();
    text := seq(zeroes, i => '1');
    for it := 0 to |digits|
      invariant |text| == zeroes + it
      invariant forall i :: 0 <= i < |text| ==> text[i] == ALPHABET[(Zeros(zeroes) + digits)[i]]
    {
      assert (Zeros(zeroes) + digits)[zeroes + it] == digits[it];
      text := text + [ALPHABET[digits[it]]];
    }
  }

  lemma AlphabetFirst()
    ensures ALPHABET[0] == '1' && DigitOf('1') == 0
    ensures forall c :: DigitOf(c) == 0 ==> c == '1'
  {
  }

  lemma NumNone(s: seq<nat>, base: nat)
    requires forall i :: 0 <= i < |s| ==> s[i] == 0
    ensures Num(s, base) == 0
  {
    NumZeros(|s|, [], base);
    assert s == Zeros(|s|) + [];
  }

  method CountZeros(s: seq<nat>) returns (n: nat)
    ensures n == Leading(s)
  {
    n := 0;
    assert s[0..] == s;
    while n < |s| && s[n] == 0
      invariant 0 <= n <= |s| && Leading(s) == n + Leading(s[n..])
    {
      assert s[n..][1..] == s[n + 1..];
      n := n + 1;
    }
  }

  // ----- text back to bytes

  /** The first place, from i on, that is not a space. */
  function AfterSpaces(s: string, i: nat): (j: nat)
    requires i <= |s|
    ensures i <= j <= |s| && (forall k :: i <= k < j ==> IsSpace(s[k])) && (j < |s| ==> !IsSpace(s[j]))
    decreases |s| - i
  {
    if i < |s| && IsSpace(s[i]) then AfterSpaces(s, i + 1) else i
  }

  /** The first place, from i on, that is a space. */
  function AfterWord(s: string, i: nat): (j: nat)
    requires i <= |s|
    ensures i <= j <= |s| && (forall k :: i <= k < j ==> !IsSpace(s[k])) && (j < |s| ==> IsSpace(s[j]))
    decreases |s| - i
  {
    if i < |s| && !IsSpace(s[i]) then AfterWord(s, i + 1) else i
  }

  /** The one word of a text, between spaces. */
  function Word(s: string): string {
    var i := AfterSpaces(s, 0);
    s[i..AfterWord(s, i)]
  }

  ghost predicate IsText(s: string) {
    && AfterSpaces(s, AfterWord(s, AfterSpaces(s, 0))) == |s|
    && forall k :: 0 <= k < |Word(s)| ==> DigitOf(Word(s)[k]) >= 0
  }

  function DigitsOf(word: string): seq<nat>
    requires forall k :: 0 <= k < |word| ==> DigitOf(word[k]) >= 0
  {
    seq(|word|, k requires 0 <= k < |word| => DigitOf(word[k]))
  }

  ghost function Decoded(s: string): Option<seq<nat>> {
    if IsText(s) then Some(Rebase(DigitsOf(Word(s)), 58, 256)) else None
  }

  method SkipSpaces(s: string, from: nat) returns (p: nat)
    requires from <= |s|
    ensures p == AfterSpaces(s, from)
  {
    p := from;
    while p < |s| && IsSpace(s[p])
      invariant from <= p <= |s| && AfterSpaces(s, p) == AfterSpaces(s, from)
    {
      p := p + 1;
    }
  }

  /** Digits of a text from a place on, with zero for what is none. */
  ghost function Tail(s: string, q: nat): seq<nat>
    requires q <= |s|
  {
    seq(|s| - q, k requires 0 <= k < |s| - q => if DigitOf(s[q + k]) >= 0 then DigitOf(s[q + k]) else 0)
  }

  lemma TailDigits(s: string, q: nat)
    requires q <= |s|
    ensures Digits(Tail(s, q), 58)
  {
    forall k | 0 <= k < |s| - q ensures Tail(s, q)[k] < 58 { assert DigitOf(s[q + k]) < 58; }
  }

  /** The bytes of the digits from a place up to the next space, unless one of them is not a digit. */
  method ConvertWord(s: string, q: nat) returns (ok: bool, p: nat, bytes: seq<nat>)
    requires q <= |s|
    ensures ok <==> forall k :: q <= k < AfterWord(s, q) ==> DigitOf(s[k]) >= 0
    ensures ok ==> p == AfterWord(s, q) && bytes == Canon(Num(Tail(s, q)[..p - q], 58), 256)
  {
    hide Num, Canon, Pow, DigitOf, IsSpace;
    ghost var tail := Tail(s, q);
    var n := |s| - q;
    var size := n * 733 / 1000 + 1;
    EnoughBytes(n);
    var buffer := new nat[size](i => 0);
    NumNone(buffer[..], 256);
    var length: nat := 0;
    p, bytes := q, [];
    assert tail[0..0] == [];
    NumNone([], 58);
    TailDigits(s, q);
    while p < |s| && !IsSpace(s[p])
      invariant q <= p <= AfterWord(s, q) && length <= size && Digits(buffer[..], 256)
      invariant forall i :: 0 <= i < size - length ==> buffer[i] == 0
      invariant forall k :: q <= k < p ==> DigitOf(s[k]) >= 0
      invariant Num(buffer[..], 256) == Num(tail[0..p - q], 58)
    {
      WordGoesOn(s, q, p);
      var carry := DigitOf(s[p]);
      if carry == -1 { return false, p, []; }
      assert tail[p - q] == carry;
      RoomFor(tail, 0, p - q, 58, 256, size);
      length := MultiplyAdd(buffer, length, 256, 58, carry);
      p := p + 1;
    }
    if p < |s| { WordGoesOn(s, q, p); }
    var it := SkipZeros(buffer, size - length, 256);
    assert tail[0..p - q] == tail[..p - q];
    return true, p, buffer[it..];
  }

  method DecodeBase58(s: string) returns (r: Option<seq<nat>>)
    ensures r == Decoded(s)
  {
    hide Num, Canon, Pow, DigitOf, IsSpace, AfterSpaces, AfterWord, Word, DigitsOf;
    var start := SkipSpaces(s, 0);
    var p := start;
    var zeroes := 0;
    while p < |s| && s[p] == '1'
      invariant start <= p <= AfterWord(s, start) && zeroes == p - start && forall k :: start <= k < p ==> s[k] == '1'
    {
      WordGoesOn(s, start, p);
      zeroes, p := zeroes + 1, p + 1;
    }
    var q := p;
    WordFrom(s, start, q);
    var ok, bytes;
    ok, p, bytes := ConvertWord(s, q);
    WordOfDigits(s, start, q);
    if !ok { return None; }
    p := SkipSpaces(s, p);
    if p != |s| { return None; }
    WordSplits(s, start, q);
    r := Some(Zeros(zeroes) + bytes);
  }

  lemma {:induction false} WordFrom(s: string, i: nat, q: nat)
    requires i <= |s| && i <= q <= AfterWord(s, i)
    ensures AfterWord(s, q) == AfterWord(s, i)
    decreases q - i
  {
    if i < q { WordFrom(s, i + 1, q); }
  }

  /** The word has only digits exactly when it has only digits after its leading ones. */
  lemma WordOfDigits(s: string, i: nat, q: nat)
    requires i == AfterSpaces(s, 0) <= q <= AfterWord(s, i) && forall k :: i <= k < q ==> s[k] == '1'
    ensures (forall k :: 0 <= k < |Word(s)| ==> DigitOf(Word(s)[k]) >= 0) <==>
            (forall k :: q <= k < AfterWord(s, i) ==> DigitOf(s[k]) >= 0)
  {
    hide DigitOf, IsSpace, AfterSpaces, AfterWord;
    AlphabetFirst();
    var end := AfterWord(s, i);
    if forall k :: 0 <= k < |Word(s)| ==> DigitOf(Word(s)[k]) >= 0 {
      forall k | q <= k < end ensures DigitOf(s[k]) >= 0 { assert Word(s)[k - i] == s[k]; }
    }
    if forall k :: q <= k < end ==> DigitOf(s[k]) >= 0 {
      forall k | 0 <= k < |Word(s)| ensures DigitOf(Word(s)[k]) >= 0 { assert Word(s)[k] == s[i + k]; }
    }
  }

  /** Leading ones of the word are leading zeros of its digits. */
  lemma WordSplits(s: string, i: nat, q: nat)
    requires i == AfterSpaces(s, 0) <= q <= AfterWord(s, i) && IsText(s)
    requires (forall k :: i <= k < q ==> s[k] == '1') && (q < |s| ==> s[q] != '1')
    ensures Leading(DigitsOf(Word(s))) == q - i
    ensures Num(DigitsOf(Word(s)), 58) == Num(Tail(s, q)[..AfterWord(s, i) - q], 58)
  {
    hide Num, DigitOf, IsSpace, AfterSpaces, AfterWord;
    AlphabetFirst();
    var word, end := Word(s), AfterWord(s, i);
    var d, rest := DigitsOf(word), Tail(s, q)[..end - q];
    forall k | 0 <= k < |word| ensures word[k] == s[i + k] && d[k] == DigitOf(s[i + k]) {}
    assert d == Zeros(q - i) + rest;
    LeadingIs(q - i, rest);
    NumZeros(q - i, rest, 58);
  }

  lemma WordGoesOn(s: string, i: nat, p: nat)
    requires i <= p < |s| && p <= AfterWord(s, i)
    ensures p < AfterWord(s, i) <==> !IsSpace(s[p])
    ensures s[p] == '1' ==> p < AfterWord(s, i)
  {
  }

  // ----- what a text means

  /** The text of some bytes is a numeral of their number, with a '1' for each zero in front. */
  lemma EncodedMeans(bytes: seq<nat>)
    requires Digits(bytes, 256)
    ensures var t := Encoded(bytes);
            && (forall k :: 0 <= k < |t| ==> DigitOf(t[k]) >= 0)
            && Num(DigitsOf(t), 58) == Num(bytes, 256) && Leading(DigitsOf(t)) == Leading(bytes)
  {
    hide Num, Canon, Leading, Zeros, ALPHABET, DigitOf;
    RebaseBack(bytes, 256, 58);
    var n, c := Leading(bytes), Canon(Num(bytes, 256), 58);
    var digits := Rebase(bytes, 256, 58);
    AlphabetInverse();
    var t := Encoded(bytes);
    assert DigitsOf(t) == digits;
    NumOfCanon(Num(bytes, 256), 58);
    LeadingIs(n, c);
    NumZeros(n, c, 58);
  }

  /** Two texts: one byte, and the same with a zero in front. */
  lemma KnownTexts()
    ensures Encoded([0x61]) == "2g" && Encoded([0, 0x61]) == "12g"
  {
    assert Num([], 256) == 0;
    assert [0x61][..0] == [] && Num([0x61], 256) == 0x61;
    assert [0, 0x61][..1] == [0] && [0][..0] == [] && Num([0], 256) == 0 && Num([0, 0x61], 256) == 0x61;
    QuotUnique(97, 58, 1, 39);
    QuotUnique(1, 58, 0, 1);
    assert Canon(1, 58) == [1];
    assert Canon(97, 58) == [1, 39];
    assert Leading([0x61]) == 0 && [0, 0x61][1..] == [0x61] && Leading([0, 0x61]) == 1;
    assert Rebase([0x61], 256, 58) == [1, 39] && Rebase([0, 0x61], 256, 58) == [0, 1, 39];
    AlphabetInverse();
    assert DigitOf('1') == 0 && DigitOf('2') == 1 && DigitOf('g') == 39;
    assert ALPHABET[0] == '1' && ALPHABET[1] == '2' && ALPHABET[39] == 'g';
  }

  // ----- both ways

  /** Decoding undoes encoding, for every list of bytes. */
  lemma DecodeEncoded(bytes: seq<nat>)
    requires Digits(bytes, 256)
    ensures Decoded(Encoded(bytes)) == Some(bytes)
  {
    hide Rebase;
    RebaseBack(bytes, 256, 58);
    var digits := Rebase(bytes, 256, 58);
    var text := Encoded(bytes);
    AlphabetInverse();
    forall k | 0 <= k < |text| ensures DigitOf(text[k]) == digits[k] && !IsSpace(text[k]) {
      assert text[k] == ALPHABET[digits[k]];
    }
    NoSpaces(text);
    assert DigitsOf(Word(text)) == digits;
  }

  /** Encoding what a text decodes to gives its word, which is the whole text if it has no spaces. */
  lemma EncodeDecoded(text: string)
    requires Decoded(text).Some?
    ensures Digits(Decoded(text).value, 256) && Encoded(Decoded(text).value) == Word(text)
    ensures (forall k :: 0 <= k < |text| ==> !IsSpace(text[k])) ==> Word(text) == text
  {
    hide Rebase, DigitOf, ALPHABET, Word, IsSpace;
    var word := Word(text);
    var digits := DigitsOf(word);
    DigitsBelow(word);
    RebaseBack(digits, 58, 256);
    AlphabetInverse();
    assert TextOf(digits) == word;
    if forall k :: 0 <= k < |text| ==> !IsSpace(text[k]) { NoSpaces(text); }
  }

  lemma DigitsBelow(text: string)
    requires forall k :: 0 <= k < |text| ==> DigitOf(text[k]) >= 0
    ensures Digits(DigitsOf(text), 58)
  {
  }

  lemma NoSpaces(text: string)
    requires forall k :: 0 <= k < |text| ==> !IsSpace(text[k])
    ensures AfterSpaces(text, 0) == 0 && AfterWord(text, 0) == |text| && Word(text) == text
    ensures AfterSpaces(text, |text|) == |text|
  {
    hide IsSpace;
  }
}
