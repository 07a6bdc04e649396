/** Products, quotients and powers of two. */
module Arithmetic {

  lemma MulAdd(a: int, b: int, c: int)
    ensures (a + b) * c == a * c + b * c
  {
  }

  lemma MulAssoc(a: int, b: int, c: int)
    ensures (a * b) * c == a * (b * c)
  {
  }

  lemma MulNat(a: nat, b: nat)
    ensures a * b >= 0
  {
  }

  lemma MulLe(a: nat, b: nat, c: nat)
    requires a <= b
    ensures a * c <= b * c
  {
    MulAdd(a, b - a, c);
    MulNat(b - a, c);
  }

  /** A larger factor adds at least one whole multiple. */
  lemma MulStep(a: nat, b: nat, c: nat)
    requires a < b
    ensures a * c + c <= b * c
  {
    MulLe(a + 1, b, c);
    MulAdd(a, 1, c);
  }

  lemma DivMod(x: nat, p: nat)
    requires p > 0
    ensures x == x / p * p + x % p && 0 <= x % p < p
  {
  }

  lemma DivUnique(x: nat, p: nat, q: nat, r: nat)
    requires x == q * p + r && r < p
    ensures x / p == q && x % p == r
  {
    DivMod(x, p);
    if x / p < q { MulStep(x / p, q, p); } else if q < x / p { MulStep(q, x / p, p); }
  }

  lemma QuotientBelow(x: nat, p: nat, q: nat)
    requires x < p * q
    ensures p > 0 && 0 <= x / p < q
  {
    DivMod(x, p);
    if x / p >= q { MulLe(q, x / p, p); }
  }

  lemma DivNat(x: nat, p: nat)
    requires p > 0
    ensures x / p >= 0
  {
    DivMod(x, p);
  }

  /** Quotient and remainder, to be reasoned about by the two lemmas below. */
  function Quot(x: nat, p: nat): nat
    requires p > 0
  {
    DivNat(x, p);
    x / p
  }

  function Rem(x: nat, p: nat): nat
    requires p > 0
  {
    x % p
  }

  lemma QuotRem(x: nat, p: nat)
    requires p > 0
    ensures x == Quot(x, p) * p + Rem(x, p) && Rem(x, p) < p && Quot(x, p) == x / p && Rem(x, p) == x % p
  {
    DivMod(x, p);
  }

  lemma QuotUnique(x: nat, p: nat, q: nat, r: nat)
    requires x == q * p + r && r < p
    ensures Quot(x, p) == q && Rem(x, p) == r
  {
    DivUnique(x, p, q, r);
  }

  function Pow2(h: nat): (p: nat)
    ensures p > 0
  {
    if h == 0 then 1 else 2 * Pow2(h - 1)
  }

  lemma Pow2Next(h: nat)
    ensures Pow2(0) == 1 && Pow2(h + 1) == 2 * Pow2(h)
  {
  }

  lemma {:induction false} Pow2Add(a: nat, b: nat)
    ensures Pow2(a + b) == Pow2(a) * Pow2(b)
  {
    hide Pow2;
    Pow2Next(0);
    if a > 0 {
      Pow2Add(a - 1, b);
      Pow2Next(a - 1);
      Pow2Next(a - 1 + b);
      Double(Pow2(b), Pow2(a - 1));
    }
  }

  lemma {:induction false} Pow2Le(a: nat, b: nat)
    requires a <= b
    ensures Pow2(a) <= Pow2(b)
  {
    if a < b { Pow2Le(a, b - 1); }
  }

  lemma Pow2Values()
    ensures Pow2(8) == 0x100 && Pow2(16) == 0x1_0000 && Pow2(23) == 0x80_0000 && Pow2(24) == 0x100_0000
    ensures Pow2(32) == 0x1_0000_0000
  {
    assert Pow2(8) == 0x100;
    Pow2Add(8, 8);
    Pow2Add(16, 7);
    Pow2Add(16, 8);
    Pow2Add(16, 16);
  }

  // ----- bitwise operators

  function BitAnd(a: nat, b: nat): (c: nat)
    ensures c <= a && c <= b
  {
    if a == 0 || b == 0 then 0 else 2 * BitAnd(a / 2, b / 2) + (if a % 2 == 1 && b % 2 == 1 then 1 else 0)
  }

  function BitOr(a: nat, b: nat): nat {
    if a == 0 && b == 0 then 0 else 2 * BitOr(a / 2, b / 2) + (if a % 2 == 1 || b % 2 == 1 then 1 else 0)
  }

  /** Numbers whose bits do not overlap: one a multiple of a power of two, the other below it. */
  lemma {:induction false} OrDisjoint(a: nat, s: nat, b: nat)
    requires b < Pow2(s)
    ensures BitOr(a * Pow2(s), b) == a * Pow2(s) + b
    decreases s, a
  {
    if s == 0 {
      OrZero(a);
    } else {
      var p := Pow2(s - 1);
      assert a * Pow2(s) == 2 * (a * p);
      OrDisjoint(a, s - 1, b / 2);
    }
  }

  lemma {:induction false} OrZero(a: nat)
    ensures BitOr(a, 0) == a
  {
    if a > 0 { OrZero(a / 2); }
  }

  lemma {:induction false} OrSwap(a: nat, b: nat)
    ensures BitOr(a, b) == BitOr(b, a)
    decreases a + b
  {
    if a > 0 || b > 0 { OrSwap(a / 2, b / 2); }
  }

  /** Bits above position s do not touch those below. */
  lemma {:induction false} OrAbove(a: nat, b: nat, s: nat, r: nat)
    requires r < Pow2(s)
    ensures BitOr(a * Pow2(s) + r, b * Pow2(s)) == BitOr(a, b) * Pow2(s) + r
    decreases s
  {
    hide BitOr;
    if s > 0 {
      var p := Pow2(s - 1);
      Double(a, p);
      Double(b, p);
      Double(BitOr(a, b), p);
      OrAbove(a, b, s - 1, r / 2);
      OrDouble(a * p, b * p, r);
    }
  }

  lemma Double(a: nat, p: nat)
    ensures a * (2 * p) == 2 * (a * p)
  {
  }

  lemma OrDouble(a: nat, b: nat, r: nat)
    ensures BitOr(2 * a + r, 2 * b) == 2 * BitOr(a + r / 2, b) + r % 2
  {
    assert (2 * a + r) / 2 == a + r / 2 && (2 * a + r) % 2 == r % 2;
  }

  /** Length in bits. */
  function BitLen(x: nat): (n: nat)
    ensures x < Pow2(n) && (n > 0 ==> Pow2(n - 1) <= x)
  {
    if x == 0 then 0 else 1 + BitLen(x / 2)
  }

  lemma BitLenUnique(x: nat, n: nat)
    requires x < Pow2(n) && (n > 0 ==> Pow2(n - 1) <= x)
    ensures n == BitLen(x)
  {
    var m := BitLen(x);
    if n < m { Pow2Le(n, m - 1); } else if m < n { Pow2Le(m, n - 1); }
  }
}
