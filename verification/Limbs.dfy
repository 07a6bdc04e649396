/**
 Unsigned integers of a fixed number of 32-bit limbs, least significant first, with the
 schoolbook operations on them.  All arithmetic is modulo the size of the type.
 */
module Limbs {
  import opened Arithmetic

  const BASE: nat := 0x1_0000_0000
  const TWO64: nat := 0x1_0000_0000_0000_0000

  function Pow(k: nat): (p: nat)
    ensures p > 0
  {
    Pow2(32 * k)
  }

  lemma PowAdd(i: nat, j: nat)
    ensures Pow(i + j) == Pow(i) * Pow(j)
  {
    Pow2Add(32 * i, 32 * j);
  }

  lemma PowNext(k: nat)
    ensures Pow(k + 1) == BASE * Pow(k) && Pow(0) == 1 && Pow(1) == BASE
  {
    Pow2Values();
    PowAdd(1, k);
  }

  ghost predicate IsLimbs(s: seq<nat>) { forall i :: 0 <= i < |s| ==> s[i] < BASE }

  /** The number the limbs stand for. */
  ghost function Val(s: seq<nat>): nat {
    if s == [] then 0 else Val(s[..|s| - 1]) + s[|s| - 1] * Pow(|s| - 1)
  }

  lemma ValSnoc(s: seq<nat>, i: nat)
    requires i < |s|
    ensures Val(s[..i + 1]) == Val(s[..i]) + s[i] * Pow(i)
  {
    assert s[..i + 1][..i] == s[..i];
  }

  lemma {:induction false} ValBound(s: seq<nat>)
    requires IsLimbs(s)
    ensures Val(s) < Pow(|s|)
  {
    hide Pow;
    if s == [] { PowNext(0); } else {
      var n := |s| - 1;
      ValBound(s[..n]);
      PowNext(n);
      MulStep(s[n], BASE, Pow(n));
    }
  }

  lemma {:induction false} ValConcat(a: seq<nat>, b: seq<nat>)
    ensures Val(a + b) == Val(a) + Pow(|a|) * Val(b)
    decreases |b|
  {
    hide Pow;
    if b == [] {
      assert a + b == a;
    } else {
      var n := |b| - 1;
      ValConcat(a, b[..n]);
      assert (a + b)[..|a| + n] == a + b[..n];
      PowAdd(|a|, n);
      var p, q, x, v := Pow(|a|), Pow(n), b[n], Val(b[..n]);
      assert x * (p * q) == p * (x * q);
      assert p * (v + x * q) == p * v + p * (x * q);
    }
  }

  lemma {:induction false} ValUpdate(s: seq<nat>, i: nat, x: nat)
    requires i < |s|
    ensures Val(s[i := x]) == Val(s) + (x - s[i]) * Pow(i)
  {
    hide Pow;
    var n := |s| - 1;
    if i == n {
      assert s[i := x][..n] == s[..n];
      assert (x - s[i]) * Pow(i) == x * Pow(i) - s[i] * Pow(i);
    } else {
      assert s[i := x][..n] == s[..n][i := x];
      ValUpdate(s[..n], i, x);
    }
  }

  lemma {:induction false} ValZero(s: seq<nat>)
    ensures Val(s) == 0 <==> forall i :: 0 <= i < |s| ==> s[i] == 0
  {
    hide Pow;
    if s != [] {
      var n := |s| - 1;
      ValZero(s[..n]);
      assert s[n] * Pow(n) == 0 <==> s[n] == 0;
      assert forall i :: 0 <= i < n ==> s[..n][i] == s[i];
    }
  }

  /** A sum that carries: what is kept of the value and what goes on. */
  lemma CarryStep(x: nat, carry: nat, p: nat, v: nat, n: nat, more: nat)
    requires x + carry * p == v && n == carry + more
    ensures x + (n % BASE) * p + (n / BASE) * (BASE * p) == v + more * p
  {
    var r, q := n % BASE, n / BASE;
    assert n == q * BASE + r;
    assert q * (BASE * p) == q * BASE * p;
    MulAdd(q * BASE, r, p);
    MulAdd(carry, more, p);
  }

  lemma ModIs(x: nat, m: nat, q: nat, v: nat)
    requires x < m && x + q * m == v
    ensures v % m == x
  {
    DivUnique(v, m, q, x);
  }

  lemma ComplementStep(x: nat, y: nat, a: nat, p: nat)
    requires a < BASE && x + y == p - 1
    ensures x + (BASE - 1 - a) * p + (y + a * p) == BASE * p - 1
  {
    MulAdd(BASE - 1 - a, a, p);
  }

  class BaseUint {
    const pn: array<nat>

    ghost predicate Valid()
      reads pn
    {
      pn.Length >= 2 && IsLimbs(pn[..])
    }

    ghost function Value(): nat
      reads pn
    {
      Val(pn[..])
    }

    ghost function Modulus(): nat { Pow(pn.Length) }

    constructor (width: nat)
      requires width >= 2
      ensures Valid() && fresh(pn) && pn.Length == width && Value() == 0
    {
      pn := new nat[width](i => 0);
      new;
      ValZero(pn[..]);
    }

    constructor Copy(b: BaseUint)
      requires b.Valid()
      ensures Valid() && fresh(pn) && pn.Length == b.pn.Length && pn[..] == b.pn[..]
    {
      pn := new nat[b.pn.Length](i requires 0 <= i < b.pn.Length reads b, b.pn => b.pn[i]);
    }

    method Assign(b: nat)
      requires Valid() && b < TWO64
      modifies pn
      ensures Valid() && Value() == b
    {
      pn[0] := b % BASE;
      pn[1] := b / BASE;
      for i := 2 to pn.Length
        invariant pn[0] == b % BASE && pn[1] == b / BASE && forall j :: 2 <= j < i ==> pn[j] == 0
      {
        pn[i] := 0;
      }
      ValLow(pn[..]);
    }

    method Not() returns (ret: BaseUint)
      requires Valid()
      ensures ret.Valid() && fresh(ret) && fresh(ret.pn) && ret.pn.Length == pn.Length
      ensures ret.Value() == Modulus() - 1 - Value()
    {
      hide Pow;
      ret := new BaseUint(pn.Length);
      PowNext(0);
      for i := 0 to pn.Length
        invariant ret.Valid() && Valid() && ret.pn.Length == pn.Length && pn[..] == old(pn[..])
        invariant Val(ret.pn[..i]) + Val(pn[..i]) == Pow(i) - 1
      {
        ghost var x := ret.pn[..i];
        ret.pn[i] := BASE - 1 - pn[i];
        assert ret.pn[..i] == x;
        ValSnoc(ret.pn[..], i);
        ValSnoc(pn[..], i);
        assert ret.pn[..][..i + 1] == ret.pn[..i + 1] && pn[..][..i + 1] == pn[..i + 1];
        assert ret.pn[..][..i] == ret.pn[..i] && pn[..][..i] == pn[..i];
        PowNext(i);
        ComplementStep(Val(ret.pn[..i]), Val(pn[..i]), pn[i], Pow(i));
      }
      assert ret.pn[..pn.Length] == ret.pn[..] && pn[..pn.Length] == pn[..];
    }

    method Add(b: BaseUint)
      requires Valid() && b.Valid() && b.pn.Length == pn.Length
      modifies pn
      ensures Valid() && Value() == (old(Value()) + old(b.Value())) % Modulus()
    {
      hide Pow, Val, AddsUp;
      var carry: nat := 0;
      ghost var x, y := pn[..], b.pn[..];
      AddsUpNone(x, y);
      for i := 0 to pn.Length
        invariant carry <= 1 && Valid() && pn[i..] == x[i..] && b.pn[i..] == y[i..]
        invariant AddsUp(pn[..i], carry, x, y)
      {
        assert pn[i] == x[i] && b.pn[i] == y[i];
        var n := carry + pn[i] + b.pn[i];
        assert n < TWO64;
        AddsUpMore(pn[..i], carry, x, y, n);
        ghost var low := pn[..i];
        pn[i] := n % BASE;
        carry := n / BASE;
        assert pn[..i + 1] == low + [n % BASE];
      }
      assert pn[..pn.Length] == pn[..];
      AddsUpAll(pn[..], carry, x, y);
    }

    method Increment()
      requires Valid()
      modifies pn
      ensures Valid() && Value() == (old(Value()) + 1) % Modulus()
    {
      hide Pow, Val;
      var i, more := 0, true;
      PowNext(0);
      while i < pn.Length && more
        invariant 0 <= i <= pn.Length && Valid()
        invariant more ==> Val(pn[..]) + Pow(i) == old(Value()) + 1
        invariant !more ==> Val(pn[..]) == old(Value()) + 1
        decreases pn.Length - i, more
      {
        IncrementStep(pn[..], i);
        ghost var s := pn[..];
        pn[i] := (pn[i] + 1) % BASE;
        assert pn[..] == s[i := pn[i]];
        if pn[i] == 0 { i := i + 1; } else { more := false; }
      }
      ValBound(pn[..]);
      if more {
        ModIs(Val(pn[..]), Modulus(), 1, old(Value()) + 1);
      } else {
        ModIs(Val(pn[..]), Modulus(), 0, old(Value()) + 1);
      }
    }

    method Decrement()
      requires Valid()
      modifies pn
      ensures Valid() && Value() == (old(Value()) - 1) % Modulus()
    {
      hide Pow, Val;
      var i, more := 0, true;
      PowNext(0);
      while i < pn.Length && more
        invariant 0 <= i <= pn.Length && Valid()
        invariant more ==> Val(pn[..]) + 1 == old(Value()) + Pow(i)
        invariant !more ==> Val(pn[..]) + 1 == old(Value())
        decreases pn.Length - i, more
      {
        DecrementStep(pn[..], i);
        ghost var s := pn[..];
        pn[i] := (pn[i] + BASE - 1) % BASE;
        assert pn[..] == s[i := pn[i]];
        if pn[i] == BASE - 1 { i := i + 1; } else { more := false; }
      }
      ValBound(pn[..]);
      if more {
        ModBelow(Val(pn[..]), Modulus(), old(Value()) - 1);
      } else {
        ModIs(Val(pn[..]), Modulus(), 0, old(Value()) - 1);
      }
    }

    method Negated() returns (ret: BaseUint)
      requires Valid()
      ensures ret.Valid() && fresh(ret) && fresh(ret.pn) && ret.pn.Length == pn.Length
      ensures ret.Value() == (Modulus() - Value()) % Modulus()
    {
      ret := Not();
      ret.Increment();
    }

    method Subtract(b: BaseUint)
      requires Valid() && b.Valid() && b.pn.Length == pn.Length
      modifies pn
      ensures Valid() && Value() == (old(Value()) - old(b.Value())) % Modulus()
    {
      hide Pow, Val;
      ValBound(pn[..]);
      ValBound(b.pn[..]);
      var minus := b.Negated();
      Add(minus);
      SubtractMod(old(Value()), old(b.Value()), Modulus());
    }

    method MultiplyWord(b: nat)
      requires Valid() && b < BASE
      modifies pn
      ensures Valid() && Value() == old(Value()) * b % Modulus()
    {
      hide Pow, Val, Multiplies;
      var carry: nat := 0;
      ghost var x := pn[..];
      MultipliesNone(b, x);
      for i := 0 to pn.Length
        invariant carry < BASE && Valid() && pn[i..] == x[i..]
        invariant Multiplies(pn[..i], carry, b, x)
      {
        assert pn[i] == x[i];
        WordProduct(carry, 0, b, pn[i]);
        var n := carry + b * pn[i];
        assert n < TWO64;
        MultipliesMore(pn[..i], carry, b, x, n);
        ghost var low := pn[..i];
        pn[i] := n % BASE;
        carry := n / BASE;
        assert pn[..i + 1] == low + [n % BASE];
      }
      assert pn[..pn.Length] == pn[..];
      MultipliesAll(pn[..], carry, b, x);
    }

    method Multiply(b: BaseUint)
      requires Valid() && b.Valid() && b.pn.Length == pn.Length
      modifies pn
      ensures Valid() && Value() == old(Value()) * old(b.Value()) % Modulus()
    {
      hide Pow, Val, Product;
      ghost var x, y := pn[..], b.pn[..];
      var a := new nat[pn.Length](i => 0);
      ProductNone(a[..], x, y);
      for j := 0 to pn.Length
        invariant IsLimbs(a[..]) && pn[..] == x && b.pn[..] == y
        invariant Product(a[..], x, y, j)
      {
        ghost var before := a[..];
        assert pn[j] == x[j];
        ghost var carry := AddRow(a, pn[j], b, j);
        ProductMore(before, a[..], carry, x, y, j);
      }
      ProductAll(a[..], x, y);
      ghost var acc := a[..];
      for i := 0 to pn.Length
        invariant a[..] == acc && forall j :: 0 <= j < i ==> pn[j] == a[j]
      {
        pn[i] := a[i];
      }
      assert pn[..] == a[..];
    }

    /** Adds d times b, moved up by j limbs; what would go beyond the end is dropped. */
    static method AddRow(a: array<nat>, d: nat, b: BaseUint, j: nat) returns (ghost dropped: nat)
      requires b.Valid() && a != b.pn && a.Length == b.pn.Length && j < a.Length && d < BASE && IsLimbs(a[..])
      modifies a
      ensures IsLimbs(a[..]) && Row(a[..], dropped, Val(old(a[..])), d, b.pn[..], a.Length - j, j)
    {
      hide Pow, Val, Row;
      var carry: nat := 0;
      var i := 0;
      ghost var y, start := b.pn[..], Val(a[..]);
      RowNone(a[..], start, d, y, j);
      while i + j < a.Length
        invariant 0 <= i <= a.Length - j && carry < BASE && IsLimbs(a[..]) && b.pn[..] == y
        invariant Row(a[..], carry, start, d, y, i, j)
      {
        assert b.pn[i] == y[i];
        WordProduct(carry, a[i + j], d, b.pn[i]);
        var n: nat := carry + a[i + j] + d * b.pn[i];
        assert n < TWO64;
        RowMore(a[..], carry, start, d, y, i, j, n);
        ghost var s := a[..];
        a[i + j] := n % BASE;
        carry := n / BASE;
        assert a[..] == s[i + j := a[i + j]];
        i := i + 1;
      }
      dropped := carry;
    }

    method CompareTo(b: BaseUint) returns (c: int)
      requires Valid() && b.Valid() && b.pn.Length == pn.Length
      ensures c == if Value() < b.Value() then -1 else if Value() > b.Value() then 1 else 0
    {
      hide Pow, Val;
      var i := pn.Length;
      while i > 0
        invariant 0 <= i <= pn.Length && Valid() && b.Valid() && forall k :: i <= k < pn.Length ==> pn[k] == b.pn[k]
      {
        i := i - 1;
        if pn[i] < b.pn[i] {
          LessAt(pn[..], b.pn[..], i);
          return -1;
        }
        if pn[i] > b.pn[i] {
          LessAt(b.pn[..], pn[..], i);
          return 1;
        }
      }
      assert pn[..] == b.pn[..];
      return 0;
    }

    method Clear()
      requires Valid()
      modifies pn
      ensures Valid() && forall i :: 0 <= i < pn.Length ==> pn[i] == 0
    {
      for i := 0 to pn.Length
        invariant forall j :: 0 <= j < i ==> pn[j] == 0
      {
        pn[i] := 0;
      }
    }

    method ShiftLeft(shift: nat)
      requires Valid()
      modifies pn
      ensures Valid() && Value() == old(Value()) * Pow2(shift) % Modulus()
    {
      hide Pow, Val, Pow2, BitOr, Shl, Shr, LeftLimb, RightLimb, Quot, LeftDone;
      ghost var x := pn[..];
      var a := new BaseUint.Copy(this);
      Clear();
      var k, s := shift / 32, shift % 32;
      ghost var m := MovedUp(x, k);
      LeftNone(pn[..], m, s, k);
      for i := 0 to pn.Length
        invariant a.pn[..] == x && |m| == pn.Length && LeftDone(pn[..], m, s, i + k)
      {
        ghost var was := pn[..];
        assert i + k < pn.Length ==> m[i + k] == a.pn[i] < BASE;
        if i + k + 1 < pn.Length && s != 0 {
          pn[i + k + 1] := BitOr(pn[i + k + 1], Shr(a.pn[i], 32 - s));
        }
        if i + k < pn.Length {
          pn[i + k] := BitOr(pn[i + k], Shl(a.pn[i], s));
        }
        LeftNext(was, pn[..], m, s, i + k);
      }
      LeftAll(pn[..], m, s, pn.Length + k);
      ShiftedLeft(x, pn[..], k, s);
    }

    method ShiftRight(shift: nat)
      requires Valid()
      modifies pn
      ensures Valid() && Value() == Quot(old(Value()), Pow2(shift))
    {
      hide Pow, Val, Pow2, BitOr, Shl, Shr, LeftLimb, RightLimb, Quot, RightDone;
      ghost var x := pn[..];
      var a := new BaseUint.Copy(this);
      Clear();
      var k, s := shift / 32, shift % 32;
      ghost var m := MovedDown(x, k);
      RightNone(pn[..], m, s, -k);
      for i := 0 to pn.Length
        invariant a.pn[..] == x && |m| == pn.Length && RightDone(pn[..], m, s, i - k)
      {
        ghost var was := pn[..];
        assert i >= k ==> m[i - k] == a.pn[i] < BASE;
        if i - k - 1 >= 0 && s != 0 {
          pn[i - k - 1] := BitOr(pn[i - k - 1], Shl(a.pn[i], 32 - s));
        }
        if i - k >= 0 {
          pn[i - k] := BitOr(pn[i - k], Shr(a.pn[i], s));
        }
        RightNext(was, pn[..], m, s, i - k);
      }
      RightAll(pn[..], m, s, pn.Length - k);
      ShiftedRight(x, pn[..], k, s);
    }

    /** Shift and subtract.  Without a divisor there is an error, and the number is zero by then. */
    method Divide(b: BaseUint) returns (ok: bool)
      requires Valid() && b.Valid() && b.pn.Length == pn.Length
      modifies pn
      ensures Valid() && (ok <==> old(b.Value()) != 0)
      ensures Value() == if ok then old(Value()) / old(b.Value()) else 0
    {
      hide Pow, Val, Pow2, BitOr, LowClear, Dividing, Scaled, Quot;
      var div := new BaseUint.Copy(b);
      var num := new BaseUint.Copy(this);
      ghost var v, w := Value(), b.Value();
      Clear();
      ValZero(pn[..]);
      var numBits := num.Bits();
      var divBits := div.Bits();
      if divBits == 0 {
        PowerZero();
        return false;
      }
      ok := true;
      if divBits > numBits {
        TooSmall(v, w, numBits, divBits);
        return;
      }
      var shift := numBits - divBits;
      Aligned(pn[..], v, w, numBits, divBits, pn.Length);
      div.ShiftLeft(shift);
      while shift >= 0
        invariant -1 <= shift < 32 * pn.Length && Valid() && num.Valid() && div.Valid()
        invariant num.pn.Length == div.pn.Length == pn.Length
        invariant LowClear(pn[..], shift + 1) && Dividing(Val(pn[..]), num.Value(), v, w, shift + 1)
        invariant shift >= 0 ==> div.Value() == Scaled(w, shift)
        decreases shift + 1
      {
        TryBit(num, div, shift, v, w);
        Halved(w, shift);
        div.ShiftRight(1);
        shift := shift - 1;
      }
      Divided(Val(pn[..]), num.Value(), v, w);
    }

    /** Takes the divisor off what is left, if it fits, and sets the bit of the quotient. */
    method TryBit(num: BaseUint, div: BaseUint, shift: nat, ghost v: nat, ghost w: nat)
      requires Valid() && num.Valid() && div.Valid() && num.pn.Length == div.pn.Length == pn.Length
      requires pn != num.pn && pn != div.pn && num.pn != div.pn && shift < 32 * pn.Length
      requires LowClear(pn[..], shift + 1) && Dividing(Val(pn[..]), num.Value(), v, w, shift + 1)
      requires div.Value() == Scaled(w, shift)
      modifies pn, num.pn
      ensures Valid() && num.Valid()
      ensures LowClear(pn[..], shift) && Dividing(Val(pn[..]), num.Value(), v, w, shift)
    {
      hide Pow, Val, Pow2, BitOr, LowClear, Dividing, Scaled, Quot;
      var order := num.CompareTo(div);
      ghost var q := pn[..];
      if order >= 0 {
        ValBound(num.pn[..]);
        Subtracts(num.Value(), div.Value(), num.Modulus());
        num.Subtract(div);
        SetQuotientBit(q, shift);
        pn[shift / 32] := BitOr(pn[shift / 32], Pow2(shift % 32));
        assert pn[..] == q[shift / 32 := pn[shift / 32]];
        DividingBit(Val(q), num.Value(), v, w, shift);
      } else {
        SkipQuotientBit(q, shift);
        DividingSkip(Val(q), num.Value(), v, w, shift);
      }
    }

    /** The position of the highest bit that is set, plus one. */
    method Bits() returns (n: nat)
      requires Valid()
      ensures Value() < Pow2(n) && (n > 0 ==> Pow2(n - 1) <= Value()) && n <= 32 * pn.Length
    {
      hide Pow, Val, Pow2;
      var pos := pn.Length;
      while pos > 0
        invariant 0 <= pos <= pn.Length && Valid() && forall k :: pos <= k < pn.Length ==> pn[k] == 0
      {
        pos := pos - 1;
        if pn[pos] != 0 {
          var nbits := 31;
          Pow2Values();
          while nbits > 0
            invariant 0 <= nbits <= 31 && Valid() && 0 < pn[pos] < Pow2(nbits + 1)
          {
            BitTop(pn[pos], nbits);
            if pn[pos] / Pow2(nbits) % 2 == 1 {
              TopLimb(pn[..], pos, nbits);
              return 32 * pos + nbits + 1;
            }
            nbits := nbits - 1;
          }
          PowerZero();
          TopLimb(pn[..], pos, 0);
          return 32 * pos + 1;
        }
      }
      ValZero(pn[..]);
      PowerZero();
      return 0;
    }
  }

  // ----- what the loops keep

  lemma ValAppend(low: seq<nat>, x: nat)
    ensures Val(low + [x]) == Val(low) + x * Pow(|low|)
  {
    assert (low + [x])[..|low|] == low;
  }

  ghost predicate AddsUp(low: seq<nat>, carry: nat, x: seq<nat>, y: seq<nat>) {
    |low| <= |x| && |low| <= |y| && Val(low) + carry * Pow(|low|) == Val(x[..|low|]) + Val(y[..|low|])
  }

  lemma AddsUpNone(x: seq<nat>, y: seq<nat>)
    ensures AddsUp([], 0, x, y)
  {
  }

  lemma AddsUpMore(low: seq<nat>, carry: nat, x: seq<nat>, y: seq<nat>, n: nat)
    requires AddsUp(low, carry, x, y) && |low| < |x| == |y| && n == carry + x[|low|] + y[|low|]
    ensures AddsUp(low + [n % BASE], n / BASE, x, y)
  {
    hide Pow, Val;
    var i := |low|;
    CarryStep(Val(low), carry, Pow(i), Val(x[..i]) + Val(y[..i]), n, x[i] + y[i]);
    MulAdd(x[i], y[i], Pow(i));
    ValAppend(low, n % BASE);
    ValSnoc(x, i);
    ValSnoc(y, i);
    PowNext(i);
  }

  lemma AddsUpAll(all: seq<nat>, carry: nat, x: seq<nat>, y: seq<nat>)
    requires IsLimbs(all) && AddsUp(all, carry, x, y) && |all| == |x| == |y|
    ensures Val(all) == (Val(x) + Val(y)) % Pow(|all|)
  {
    hide Pow, Val;
    assert x[..|all|] == x && y[..|all|] == y;
    ValBound(all);
    ModIs(Val(all), Pow(|all|), carry, Val(x) + Val(y));
  }

  ghost predicate Multiplies(low: seq<nat>, carry: nat, b: nat, x: seq<nat>) {
    |low| <= |x| && Val(low) + carry * Pow(|low|) == b * Val(x[..|low|])
  }

  lemma MultipliesNone(b: nat, x: seq<nat>)
    ensures Multiplies([], 0, b, x)
  {
  }

  lemma MultipliesMore(low: seq<nat>, carry: nat, b: nat, x: seq<nat>, n: nat)
    requires Multiplies(low, carry, b, x) && |low| < |x| && n == carry + b * x[|low|]
    ensures Multiplies(low + [n % BASE], n / BASE, b, x)
  {
    hide Pow, Val;
    var i := |low|;
    CarryStep(Val(low), carry, Pow(i), b * Val(x[..i]), n, b * x[i]);
    ValAppend(low, n % BASE);
    ValSnoc(x, i);
    PowNext(i);
    assert b * (Val(x[..i]) + x[i] * Pow(i)) == b * Val(x[..i]) + b * x[i] * Pow(i);
  }

  lemma MultipliesAll(all: seq<nat>, carry: nat, b: nat, x: seq<nat>)
    requires IsLimbs(all) && Multiplies(all, carry, b, x) && |all| == |x|
    ensures Val(all) == Val(x) * b % Pow(|all|)
  {
    hide Pow, Val;
    assert x[..|all|] == x;
    ValBound(all);
    assert Val(x) * b == b * Val(x);
    ModIs(Val(all), Pow(|all|), carry, b * Val(x));
  }

  /** Products of a part of x with y, but for multiples of the modulus. */
  ghost predicate ProductWith(acc: seq<nat>, x: seq<nat>, y: seq<nat>, j: nat, q: nat) {
    j <= |x| && Val(acc) + q * Pow(|acc|) == Val(x[..j]) * Val(y)
  }

  ghost predicate Product(acc: seq<nat>, x: seq<nat>, y: seq<nat>, j: nat) {
    exists q :: ProductWith(acc, x, y, j, q)
  }

  ghost predicate Row(acc: seq<nat>, carry: nat, start: nat, d: nat, y: seq<nat>, i: nat, j: nat) {
    i <= |y| && Val(acc) + carry * Pow(i + j) == start + d * (Val(y[..i]) * Pow(j))
  }

  lemma ProductNone(acc: seq<nat>, x: seq<nat>, y: seq<nat>)
    requires forall i :: 0 <= i < |acc| ==> acc[i] == 0
    ensures Product(acc, x, y, 0)
  {
    ValZero(acc);
    assert ProductWith(acc, x, y, 0, 0);
  }

  lemma RowNone(acc: seq<nat>, start: nat, d: nat, y: seq<nat>, j: nat)
    requires start == Val(acc)
    ensures Row(acc, 0, start, d, y, 0, j)
  {
  }

  lemma RowMore(acc: seq<nat>, carry: nat, start: nat, d: nat, y: seq<nat>, i: nat, j: nat, n: nat)
    requires Row(acc, carry, start, d, y, i, j) && i < |y| && i + j < |acc| && n == carry + acc[i + j] + d * y[i]
    ensures Row(acc[i + j := n % BASE], n / BASE, start, d, y, i + 1, j)
  {
    hide Pow, Val;
    var p := Pow(i + j);
    ValUpdate(acc, i + j, n % BASE);
    ValSnoc(y, i);
    PowNext(i + j);
    PowAdd(i, j);
    RowArithmetic(Val(acc), carry, start, d, Val(y[..i]), y[i], Pow(i), Pow(j), acc[i + j], n);
  }

  lemma RowArithmetic(v: nat, carry: nat, start: nat, d: nat, w: nat, digit: nat, pi: nat, pj: nat, x: nat, n: nat)
    requires v + carry * (pi * pj) == start + d * (w * pj) && n == carry + x + d * digit
    ensures v + (n % BASE - x) * (pi * pj) + n / BASE * (BASE * (pi * pj)) == start + d * ((w + digit * pi) * pj)
  {
    var p, r, q := pi * pj, n % BASE, n / BASE;
    assert n == q * BASE + r;
    assert (r - x) * p + q * (BASE * p) == (r - x + q * BASE) * p;
    assert (carry + d * digit) * p == carry * p + d * digit * p;
    assert d * ((w + digit * pi) * pj) == d * (w * pj) + d * digit * p by { Regroup(d, w, digit, pi, pj); }
  }

  lemma Regroup(d: nat, w: nat, digit: nat, pi: nat, pj: nat)
    ensures d * ((w + digit * pi) * pj) == d * (w * pj) + d * digit * (pi * pj)
  {
    assert (w + digit * pi) * pj == w * pj + digit * (pi * pj);
    assert d * (digit * (pi * pj)) == d * digit * (pi * pj);
    assert d * (w * pj + digit * (pi * pj)) == d * (w * pj) + d * (digit * (pi * pj));
  }

  lemma ProductStep(before: seq<nat>, acc: seq<nat>, carry: nat, x: seq<nat>, y: seq<nat>, j: nat, q: nat)
    requires j < |x| == |y| == |acc| == |before| && ProductWith(before, x, y, j, q)
    requires Row(acc, carry, Val(before), x[j], y, |acc| - j, j)
    ensures ProductWith(acc, x, y, j + 1, q + carry + x[j] * Val(y[|acc| - j..]))
  {
    hide Pow, Val;
    var n := |acc|;
    assert y[..n - j] + y[n - j..] == y;
    ValConcat(y[..n - j], y[n - j..]);
    PowAdd(n - j, j);
    ValSnoc(x, j);
    ProductArithmetic(Val(acc), carry, Val(before), q, Val(x[..j]), Val(x[..j + 1]), x[j], Pow(j), Pow(n - j),
                      Val(y[..n - j]), Val(y[n - j..]), Pow(n), Val(y));
  }

  lemma ProductMore(before: seq<nat>, acc: seq<nat>, carry: nat, x: seq<nat>, y: seq<nat>, j: nat)
    requires j < |x| == |y| == |acc| == |before| && Product(before, x, y, j)
    requires Row(acc, carry, Val(before), x[j], y, |acc| - j, j)
    ensures Product(acc, x, y, j + 1)
  {
    hide Pow, Val, Row, ProductWith;
    var q :| ProductWith(before, x, y, j, q);
    ProductStep(before, acc, carry, x, y, j, q);
  }

  lemma ProductArithmetic(v: nat, carry: nat, start: nat, q: nat, done: nat, next: nat, d: nat, pj: nat, pr: nat,
                          low: nat, high: nat, m: nat, y: nat)
    requires m == pr * pj && y == low + pr * high && next == done + d * pj
    requires v + carry * m == start + d * (low * pj) && start + q * m == done * y
    ensures v + (q + carry + d * high) * m == next * y
  {
    MulAdd(q + carry, d * high, m);
    MulAdd(q, carry, m);
    MulAdd(done, d * pj, y);
    RowSplit(d, pj, pr, low, high);
  }

  lemma RowSplit(d: nat, pj: nat, pr: nat, low: nat, high: nat)
    ensures d * pj * (low + pr * high) == d * (low * pj) + d * high * (pr * pj)
  {
    assert d * pj * (pr * high) == d * high * (pr * pj);
    assert d * pj * low == d * (low * pj);
  }

  lemma ProductAll(acc: seq<nat>, x: seq<nat>, y: seq<nat>)
    requires IsLimbs(acc) && |x| == |acc| && Product(acc, x, y, |x|)
    ensures Val(acc) == Val(x) * Val(y) % Pow(|acc|)
  {
    hide Pow, Val;
    assert x[..|x|] == x;
    ValBound(acc);
    var q :| ProductWith(acc, x, y, |x|, q);
    ProductIs(Val(acc), Pow(|acc|), q, Val(x), Val(y));
  }

  lemma ProductIs(a: nat, m: nat, q: nat, x: nat, y: nat)
    requires a < m && a + q * m == x * y
    ensures x * y % m == a
  {
    var v := x * y;
    ModIs(a, m, q, v);
  }

  /** The highest limb that differs decides. */
  lemma LessAt(a: seq<nat>, b: seq<nat>, i: nat)
    requires IsLimbs(a) && IsLimbs(b) && i < |a| == |b| && a[i] < b[i] && forall k :: i < k < |a| ==> a[k] == b[k]
    ensures Val(a) < Val(b)
  {
    hide Pow, Val;
    assert a[i + 1..] == b[i + 1..];
    assert a == a[..i + 1] + a[i + 1..] && b == b[..i + 1] + b[i + 1..];
    ValConcat(a[..i + 1], a[i + 1..]);
    ValConcat(b[..i + 1], b[i + 1..]);
    ValSnoc(a, i);
    ValSnoc(b, i);
    ValBound(a[..i]);
    MulStep(a[i], b[i], Pow(i));
  }

  lemma BitTop(x: nat, n: nat)
    requires x < Pow2(n + 1)
    ensures if x / Pow2(n) % 2 == 1 then Pow2(n) <= x else x < Pow2(n)
  {
    var p := Pow2(n);
    DivMod(x, p);
    if x / p == 0 { } else if x / p == 1 { } else { MulLe(2, x / p, p); }
  }

  lemma PowerZero()
    ensures Pow2(0) == 1 && Pow2(1) == 2
  {
  }

  lemma ValTop(s: seq<nat>, pos: nat)
    requires pos < |s| && forall k :: pos < k < |s| ==> s[k] == 0
    ensures Val(s) == Val(s[..pos]) + s[pos] * Pow(pos)
  {
    hide Val, Pow;
    assert s == s[..pos + 1] + s[pos + 1..];
    ValConcat(s[..pos + 1], s[pos + 1..]);
    ValZero(s[pos + 1..]);
    ValSnoc(s, pos);
  }

  lemma TopLimb(s: seq<nat>, pos: nat, n: nat)
    requires IsLimbs(s) && pos < |s| && (forall k :: pos < k < |s| ==> s[k] == 0) && Pow2(n) <= s[pos] < Pow2(n + 1)
    ensures Pow2(32 * pos + n) <= Val(s) < Pow2(32 * pos + n + 1)
  {
    hide Val, Pow2, Pow;
    ValTop(s, pos);
    ValBound(s[..pos]);
    ShiftPower(pos, n);
    ShiftPower(pos, n + 1);
    TopArithmetic(Val(s[..pos]), s[pos], Pow(pos), Pow2(n), Pow2(n + 1));
  }

  lemma TopArithmetic(v: nat, x: nat, p: nat, lo: nat, hi: nat)
    requires v < p && lo <= x < hi
    ensures p * lo <= v + x * p < p * hi
  {
    MulLe(lo, x, p);
    MulStep(x, hi, p);
    assert p * lo == lo * p && p * hi == hi * p;
  }

  // ----- shifts: whole limbs first, then bits

  ghost function MovedUp(x: seq<nat>, k: nat): seq<nat> {
    seq(|x|, j requires 0 <= j < |x| => if j < k then 0 else x[j - k])
  }

  ghost function MovedDown(x: seq<nat>, k: nat): seq<nat> {
    seq(|x|, j requires 0 <= j < |x| => if j + k < |x| then x[j + k] else 0)
  }

  /** Shifts of a 32-bit word. */
  function Shl(x: nat, s: nat): nat {
    MulNat(x, Pow2(s));
    Rem(x * Pow2(s), BASE)
  }

  function Shr(x: nat, s: nat): nat { Quot(x, Pow2(s)) }

  /** What the limb below hands up. */
  ghost function HighPart(m: seq<nat>, s: nat, j: nat): nat
    requires j < |m| && s < 32
  {
    if j > 0 && s != 0 then Shr(m[j - 1], 32 - s) else 0
  }

  ghost function LeftLimb(m: seq<nat>, s: nat, j: nat): nat
    requires j < |m| && s < 32
  {
    HighPart(m, s, j) + Shl(m[j], s)
  }

  ghost function RightLimb(m: seq<nat>, s: nat, j: nat): nat
    requires j < |m| && s < 32
  {
    Shr(m[j], s) + (if j + 1 < |m| then Shl(m[j + 1], 32 - s) else 0)
  }

  lemma ZeroLeft(m: seq<nat>, s: nat, j: nat)
    requires j < |m| && s < 32 && (j > 0 ==> m[j - 1] == 0)
    ensures HighPart(m, s, j) == 0 && (m[j] == 0 ==> LeftLimb(m, s, j) == 0)
  {
    hide Quot, Rem;
    QuotUnique(0, Pow2(32 - s), 0, 0);
    assert 0 * Pow2(s) == 0;
    QuotUnique(0, BASE, 0, 0);
  }

  lemma ZeroRight(m: seq<nat>, s: nat, j: nat)
    requires j < |m| && s < 32 && m[j] == 0 && (j + 1 < |m| ==> m[j + 1] == 0)
    ensures RightLimb(m, s, j) == 0
  {
    hide Quot, Rem;
    QuotUnique(0, Pow2(s), 0, 0);
    RightLast(m, s, j);
  }

  lemma RightLast(m: seq<nat>, s: nat, j: nat)
    requires j < |m| && s < 32 && (j + 1 < |m| ==> m[j + 1] == 0)
    ensures RightLimb(m, s, j) == Shr(m[j], s)
  {
    hide Quot, Rem;
    assert 0 * Pow2(32 - s) == 0;
    QuotUnique(0, BASE, 0, 0);
  }

  /** A left shift under way: limbs below d are done, limb d has what the one below hands up. */
  ghost predicate LeftDone(out: seq<nat>, m: seq<nat>, s: nat, d: nat)
    requires |out| == |m| && s < 32
  {
    && (forall j :: 0 <= j < |m| && j < d ==> out[j] == LeftLimb(m, s, j))
    && (d < |m| ==> out[d] == HighPart(m, s, d))
    && (forall j :: d < j < |m| ==> out[j] == 0)
  }

  lemma LeftNone(out: seq<nat>, m: seq<nat>, s: nat, k: nat)
    requires |out| == |m| && s < 32 && (forall j :: 0 <= j < |out| ==> out[j] == 0)
    requires forall j :: 0 <= j < |m| && j < k ==> m[j] == 0
    ensures LeftDone(out, m, s, k)
  {
    hide HighPart, LeftLimb;
    forall j | 0 <= j < |m| && j <= k ensures HighPart(m, s, j) == 0 && (j < k ==> LeftLimb(m, s, j) == 0) {
      ZeroLeft(m, s, j);
    }
  }

  lemma LeftNext(was: seq<nat>, out: seq<nat>, m: seq<nat>, s: nat, d: nat)
    requires IsLimbs(m) && |was| == |out| == |m| && s < 32 && LeftDone(was, m, s, d)
    requires forall j :: 0 <= j < |m| ==>
      out[j] == if j == d then BitOr(was[d], Shl(m[d], s))
                else if j == d + 1 && s != 0 then BitOr(was[j], Shr(m[d], 32 - s)) else was[j]
    ensures LeftDone(out, m, s, d + 1)
  {
    hide LeftLimb, BitOr, Shl, Shr;
    if d < |m| {
      LimbParts(m, s, d);
      OrNone(Shr(m[d], 32 - s));
    }
  }

  lemma LeftAll(out: seq<nat>, m: seq<nat>, s: nat, d: nat)
    requires |out| == |m| <= d && s < 32 && LeftDone(out, m, s, d)
    ensures forall j :: 0 <= j < |m| ==> out[j] == LeftLimb(m, s, j)
  {
  }

  /** A right shift under way: limbs below d - 1 are done, limb d - 1 lacks what the one above hands down. */
  ghost predicate RightDone(out: seq<nat>, m: seq<nat>, s: nat, d: int)
    requires |out| == |m| && s < 32 && d <= |m|
  {
    && (forall j :: 0 <= j < d - 1 ==> out[j] == RightLimb(m, s, j))
    && (d > 0 ==> out[d - 1] == Shr(m[d - 1], s))
    && (forall j :: 0 <= j < |m| && d <= j ==> out[j] == 0)
  }

  lemma RightNone(out: seq<nat>, m: seq<nat>, s: nat, d: int)
    requires |out| == |m| && s < 32 && d <= 0 && forall j :: 0 <= j < |out| ==> out[j] == 0
    ensures RightDone(out, m, s, d)
  {
  }

  lemma RightNext(was: seq<nat>, out: seq<nat>, m: seq<nat>, s: nat, d: int)
    requires IsLimbs(m) && |was| == |out| == |m| && s < 32 && d < |m| && RightDone(was, m, s, d)
    requires forall j :: 0 <= j < |m| ==>
      out[j] == if j == d then BitOr(was[d], Shr(m[d], s))
                else if j == d - 1 && s != 0 then BitOr(was[j], Shl(m[d], 32 - s)) else was[j]
    ensures RightDone(out, m, s, d + 1)
  {
    hide RightLimb, BitOr, Shl, Shr;
    if d > 0 { RightParts(m, s, d - 1); }
    if d >= 0 { OrNone(Shr(m[d], s)); }
  }

  lemma RightAll(out: seq<nat>, m: seq<nat>, s: nat, d: int)
    requires |out| == |m| && s < 32 && d <= |m| && RightDone(out, m, s, d)
    requires forall j :: 0 <= j < |m| && d <= j ==> m[j] == 0
    ensures forall j :: 0 <= j < |m| ==> out[j] == RightLimb(m, s, j)
  {
    hide RightLimb;
    if d > 0 { RightLast(m, s, d - 1); }
    forall j | 0 <= j < |m| && d <= j ensures RightLimb(m, s, j) == 0 { ZeroRight(m, s, j); }
  }

  lemma OrNone(x: nat)
    ensures BitOr(0, x) == x
  {
    OrZero(x);
    OrSwap(0, x);
  }

  /** Multiplying a limb by a power of two: what stays and what is handed up. */
  lemma ScaleParts(x: nat, s: nat)
    requires x < BASE && s <= 32
    ensures Rem(x * Pow2(s), BASE) == Rem(x, Pow2(32 - s)) * Pow2(s) && Quot(x * Pow2(s), BASE) == Quot(x, Pow2(32 - s))
    ensures Rem(x, Pow2(32 - s)) * Pow2(s) + Pow2(s) <= BASE && Quot(x, Pow2(32 - s)) < Pow2(s)
  {
    hide Quot, Rem, Pow2;
    var d, e := Pow2(s), Pow2(32 - s);
    Pow2Add(s, 32 - s);
    Pow2Values();
    QuotRem(x, e);
    ScaleArithmetic(x, d, e, Quot(x, e), Rem(x, e));
  }

  lemma ScaleArithmetic(x: nat, d: nat, e: nat, q: nat, r: nat)
    requires d * e == BASE && x == q * e + r && r < e && x < BASE
    ensures Rem(x * d, BASE) == r * d && Quot(x * d, BASE) == q && r * d + d <= BASE && q < d
  {
    hide Quot, Rem;
    MulStep(r, e, d);
    assert e * d == d * e;
    assert x * d == q * BASE + r * d by {
      MulAdd(q * e, r, d);
      assert q * e * d == q * (d * e);
    }
    if d == 0 { assert false; }
    QuotUnique(x * d, BASE, q, r * d);
    if q >= d { MulLe(d, q, e); }
  }

  lemma LimbParts(m: seq<nat>, s: nat, j: nat)
    requires IsLimbs(m) && j < |m| && s < 32
    ensures BitOr(HighPart(m, s, j), Shl(m[j], s)) == LeftLimb(m, s, j) < BASE
  {
    hide Pow2, BitOr, Quot, Rem;
    ScaleParts(m[j], s);
    var h, c := HighPart(m, s, j), Rem(m[j], Pow2(32 - s));
    if j > 0 { ScaleParts(m[j - 1], s); }
    OrDisjoint(c, s, h);
    OrSwap(h, c * Pow2(s));
  }

  lemma RightParts(m: seq<nat>, s: nat, j: nat)
    requires IsLimbs(m) && j < |m| && s < 32
    ensures j + 1 < |m| && s != 0 ==> BitOr(Shr(m[j], s), Shl(m[j + 1], 32 - s)) == RightLimb(m, s, j)
    ensures j + 1 == |m| || s == 0 ==> Shr(m[j], s) == RightLimb(m, s, j)
    ensures RightLimb(m, s, j) < BASE
  {
    hide Pow2, BitOr, Quot, Rem;
    Pow2Values();
    Pow2Le(32 - s, 32);
    ScaleParts(m[j], 32 - s);
    if j + 1 < |m| {
      ScaleParts(m[j + 1], 32 - s);
      var h, c := Quot(m[j], Pow2(s)), Rem(m[j + 1], Pow2(s));
      OrDisjoint(c, 32 - s, h);
      OrSwap(h, c * Pow2(32 - s));
      if s == 0 {
        PowerZero();
        QuotRem(m[j + 1], 1);
      }
    }
  }

  lemma MovedUpVal(x: seq<nat>, k: nat)
    requires IsLimbs(x)
    ensures IsLimbs(MovedUp(x, k)) && Val(MovedUp(x, k)) == Rem(Val(x) * Pow(k), Pow(|x|))
  {
    hide Pow, Val, Rem;
    var m, n := MovedUp(x, k), |x|;
    if k <= n {
      assert m == m[..k] + x[..n - k] && x == x[..n - k] + x[n - k..];
      ValConcat(m[..k], x[..n - k]);
      ValConcat(x[..n - k], x[n - k..]);
      ValZero(m[..k]);
      PowAdd(n - k, k);
      ValBound(m);
      UpArithmetic(Val(m), Val(x), Pow(k), Pow(n - k), Val(x[..n - k]), Val(x[n - k..]), Pow(n));
    } else {
      ValZero(m);
      PowAdd(n, k - n);
      assert Val(x) * (Pow(n) * Pow(k - n)) == Val(x) * Pow(k - n) * Pow(n);
      QuotUnique(Val(x) * Pow(k), Pow(n), Val(x) * Pow(k - n), 0);
    }
  }

  lemma UpArithmetic(vm: nat, vx: nat, pk: nat, pr: nat, low: nat, high: nat, m: nat)
    requires vm == pk * low && vx == low + pr * high && m == pr * pk && vm < m
    ensures Rem(vx * pk, m) == vm
  {
    hide Rem;
    MulAdd(low, pr * high, pk);
    assert pr * high * pk == high * (pr * pk);
    QuotUnique(vx * pk, m, high, vm);
  }

  lemma MovedDownVal(x: seq<nat>, k: nat)
    requires IsLimbs(x)
    ensures IsLimbs(MovedDown(x, k)) && Val(MovedDown(x, k)) == Quot(Val(x), Pow(k))
  {
    hide Pow, Val, Quot;
    var m, n := MovedDown(x, k), |x|;
    if k <= n {
      assert m == x[k..] + m[n - k..] && x == x[..k] + x[k..];
      ValConcat(x[k..], m[n - k..]);
      ValConcat(x[..k], x[k..]);
      ValZero(m[n - k..]);
      ValBound(x[..k]);
      assert Pow(k) * Val(x[k..]) == Val(x[k..]) * Pow(k);
      QuotUnique(Val(x), Pow(k), Val(x[k..]), Val(x[..k]));
    } else {
      ValZero(m);
      ValBound(x);
      PowAdd(n, k - n);
      MulLe(1, Pow(k - n), Pow(n));
      QuotUnique(Val(x), Pow(k), 0, Val(x));
    }
  }

  ghost function HandedUp(m: seq<nat>, s: nat, j: nat): nat
    requires j <= |m|
  {
    if j > 0 then Quot(m[j - 1] * Pow2(s), BASE) else 0
  }

  lemma HandedUpIs(m: seq<nat>, s: nat, j: nat)
    requires IsLimbs(m) && j < |m| && s < 32
    ensures HandedUp(m, s, j) == HighPart(m, s, j)
  {
    hide Pow2, Quot, Rem;
    if j > 0 {
      ScaleParts(m[j - 1], s);
      if s == 0 {
        Pow2Values();
        QuotUnique(m[j - 1], BASE, 0, m[j - 1]);
      }
    }
  }

  lemma {:induction false} LeftPrefix(m: seq<nat>, out: seq<nat>, s: nat, j: nat)
    requires IsLimbs(m) && |out| == |m| && s < 32 && j <= |m|
    requires forall i :: 0 <= i < |m| ==> out[i] == LeftLimb(m, s, i)
    ensures Val(out[..j]) + HandedUp(m, s, j) * Pow(j) == Pow2(s) * Val(m[..j])
    decreases j
  {
    hide Pow, Val, Pow2, Quot, Rem;
    if j == 0 {
      ValNone(out);
      ValNone(m);
    } else {
      var i, d := j - 1, Pow2(s);
      LeftPrefix(m, out, s, i);
      HandedUpIs(m, s, i);
      ValSnoc(out, i);
      ValSnoc(m, i);
      PowNext(i);
      QuotRem(m[i] * d, BASE);
      LeftArithmetic(Val(out[..i]), HandedUp(m, s, i), Pow(i), d, Val(m[..i]), m[i],
                     Quot(m[i] * d, BASE), Rem(m[i] * d, BASE));
    }
  }

  lemma ValNone(s: seq<nat>)
    ensures Val(s[..0]) == 0
  {
  }

  lemma LeftArithmetic(v: nat, h: nat, p: nat, d: nat, w: nat, x: nat, q: nat, r: nat)
    requires v + h * p == d * w && x * d == q * BASE + r
    ensures v + (h + r) * p + q * (BASE * p) == d * (w + x * p)
  {
    MulAdd(h, r, p);
    MulAdd(q * BASE, r, p);
    assert q * (BASE * p) == q * BASE * p;
    assert d * (w + x * p) == d * w + x * d * p;
  }

  lemma ShiftedLeft(x: seq<nat>, out: seq<nat>, k: nat, s: nat)
    requires IsLimbs(x) && |x| == |out| && s < 32
    requires forall j :: 0 <= j < |x| ==> out[j] == LeftLimb(MovedUp(x, k), s, j)
    ensures IsLimbs(out) && Val(out) == Val(x) * Pow2(32 * k + s) % Pow(|x|)
  {
    hide Pow, Val, Pow2, Quot, Rem, LeftLimb, HandedUp;
    var m, n := MovedUp(x, k), |x|;
    MovedUpVal(x, k);
    forall j | 0 <= j < n ensures out[j] < BASE { LimbParts(m, s, j); }
    ValBound(out);
    LeftPrefix(m, out, s, n);
    assert out[..n] == out && m[..n] == m;
    ShiftPower(k, s);
    QuotRem(Val(x) * Pow(k), Pow(n));
    var v := Val(x) * Pow(k);
    LeftTotal(v, Quot(v, Pow(n)), Pow(n), Val(m), Pow2(s), Val(out), HandedUp(m, s, n));
    assert Val(x) * (Pow(k) * Pow2(s)) == v * Pow2(s);
  }

  lemma ShiftPower(k: nat, s: nat)
    ensures Pow2(32 * k + s) == Pow(k) * Pow2(s)
  {
    Pow2Add(32 * k, s);
  }

  lemma LeftTotal(v: nat, q: nat, m: nat, vm: nat, d: nat, out: nat, h: nat)
    requires v == q * m + vm && out + h * m == d * vm && out < m
    ensures v * d % m == out
  {
    MulAdd(q * m, vm, d);
    assert q * m * d == q * d * m;
    MulAdd(q * d, h, m);
    ModIs(out, m, q * d + h, v * d);
  }

  ghost function TakenOver(m: seq<nat>, s: nat, j: nat): nat
    requires j <= |m|
  {
    if j < |m| then Rem(m[j], Pow2(s)) else 0
  }

  lemma {:induction false} RightPrefix(m: seq<nat>, out: seq<nat>, s: nat, j: nat)
    requires IsLimbs(m) && |out| == |m| && s < 32 && j <= |m|
    requires forall i :: 0 <= i < |m| ==> out[i] == RightLimb(m, s, i)
    ensures Pow2(s) * Val(out[..j]) + TakenOver(m, s, 0) == Val(m[..j]) + TakenOver(m, s, j) * Pow(j)
    decreases j
  {
    hide Pow, Val, Pow2, Quot, Rem;
    if j == 0 {
      ValNone(out);
      ValNone(m);
      PowNext(0);
    } else {
      var i, d, e := j - 1, Pow2(s), Pow2(32 - s);
      RightPrefix(m, out, s, i);
      ValSnoc(out, i);
      ValSnoc(m, i);
      PowNext(i);
      QuotRem(m[i], d);
      Pow2Add(s, 32 - s);
      Pow2Values();
      if j < |m| { ScaleParts(m[j], 32 - s); }
      RightArithmetic(Val(out[..i]), Val(m[..i]), Pow(i), d, e, m[i], Quot(m[i], d), Rem(m[i], d),
                      TakenOver(m, s, j), TakenOver(m, s, 0));
    }
  }

  lemma RightArithmetic(v: nat, w: nat, p: nat, d: nat, e: nat, x: nat, q: nat, r: nat, t: nat, first: nat)
    requires d * v + first == w + r * p && x == q * d + r && d * e == BASE
    ensures d * (v + (q + t * e) * p) + first == w + x * p + t * (BASE * p)
  {
    assert d * (v + (q + t * e) * p) == d * v + d * ((q + t * e) * p);
    assert (q + t * e) * p == q * p + t * e * p;
    assert d * (q * p + t * e * p) == q * d * p + t * (d * e * p);
    MulAdd(q * d, r, p);
  }

  lemma ShiftedRight(x: seq<nat>, out: seq<nat>, k: nat, s: nat)
    requires IsLimbs(x) && |x| == |out| && |x| > 0 && s < 32
    requires forall j :: 0 <= j < |x| ==> out[j] == RightLimb(MovedDown(x, k), s, j)
    ensures IsLimbs(out) && Val(out) == Quot(Val(x), Pow2(32 * k + s))
  {
    hide Pow, Val, Pow2, Quot, Rem, RightLimb;
    var m, n := MovedDown(x, k), |x|;
    MovedDownVal(x, k);
    forall j | 0 <= j < n ensures out[j] < BASE { RightParts(m, s, j); }
    RightPrefix(m, out, s, n);
    assert out[..n] == out && m[..n] == m;
    ShiftPower(k, s);
    QuotRem(m[0], Pow2(s));
    QuotRem(Val(x), Pow(k));
    RightTotal(Val(x), Val(m), Rem(Val(x), Pow(k)), Pow(k), Pow2(s), Val(out), Rem(m[0], Pow2(s)));
  }

  lemma RightTotal(v: nat, q: nat, r: nat, pk: nat, d: nat, out: nat, t: nat)
    requires v == q * pk + r && r < pk && d * out + t == q && t < d
    ensures pk * d > 0 && Quot(v, pk * d) == out
  {
    hide Quot;
    var m := pk * d;
    assert q * pk == out * m + t * pk by {
      MulAdd(d * out, t, pk);
      Rotate(d, out, pk);
    }
    MulStep(t, d, pk);
    assert d * pk == m;
    QuotUnique(v, m, out, t * pk + r);
  }

  lemma Rotate(a: nat, b: nat, c: nat)
    ensures a * b * c == b * (c * a)
  {
  }

  // ----- division

  /** Bits of the quotient below position t are still unset. */
  ghost predicate LowClear(q: seq<nat>, t: nat) {
    && (forall j :: 0 <= j < |q| && 32 * j + 32 <= t ==> q[j] == 0)
    && (t / 32 < |q| ==> Rem(q[t / 32], Pow2(t % 32)) == 0)
  }

  /** Quotient so far, what is left, and how much that can still be. */
  ghost predicate Dividing(q: nat, num: nat, v: nat, w: nat, t: nat) {
    q * w + num == v && num < Scaled(w, t)
  }

  ghost function Scaled(w: nat, t: nat): nat {
    MulNat(w, Pow2(t));
    w * Pow2(t)
  }

  lemma TooSmall(v: nat, w: nat, numBits: nat, divBits: nat)
    requires v < Pow2(numBits) && numBits < divBits && Pow2(divBits - 1) <= w
    ensures v / w == 0
  {
    Pow2Le(numBits, divBits - 1);
    DivUnique(v, w, 0, v);
  }

  lemma Aligned(q: seq<nat>, v: nat, w: nat, numBits: nat, divBits: nat, width: nat)
    requires v < Pow2(numBits) && 0 < divBits <= numBits <= 32 * width && Pow2(divBits - 1) <= w < Pow2(divBits)
    requires Val(q) == 0 && |q| == width
    ensures var shift := numBits - divBits;
      && shift < 32 * width && LowClear(q, shift + 1) && Dividing(0, v, v, w, shift + 1)
      && w * Pow2(shift) % Pow(width) == Scaled(w, shift)
  {
    hide Pow2, Quot, Rem;
    var shift := numBits - divBits;
    Pow2Add(divBits - 1, shift + 1);
    Pow2Add(divBits, shift);
    MulLe(Pow2(divBits - 1), w, Pow2(shift + 1));
    MulStep(w, Pow2(divBits), Pow2(shift));
    Pow2Le(numBits, 32 * width);
    DivUnique(w * Pow2(shift), Pow(width), 0, w * Pow2(shift));
    ValZero(q);
    QuotUnique(0, Pow2((shift + 1) % 32), 0, 0);
  }

  lemma Subtracts(a: nat, b: nat, m: nat)
    requires b <= a < m
    ensures (a - b) % m == a - b
  {
    DivUnique(a - b, m, 0, a - b);
  }

  lemma Halved(w: nat, shift: nat)
    ensures shift > 0 ==> Quot(Scaled(w, shift), Pow2(1)) == Scaled(w, shift - 1)
  {
    PowerZero();
    if shift > 0 {
      assert w * Pow2(shift) == w * Pow2(shift - 1) * 2;
    }
  }

  lemma ScaledDouble(w: nat, t: nat)
    ensures Scaled(w, t + 1) == 2 * Scaled(w, t) && Scaled(w, t) == Pow2(t) * w
  {
    PowerDouble(t);
    var p := Pow2(t);
    assert w * (2 * p) == 2 * (w * p);
  }

  lemma DividingBit(q: nat, num: nat, v: nat, w: nat, shift: nat)
    requires Dividing(q, num + Scaled(w, shift), v, w, shift + 1)
    ensures Dividing(q + Pow2(shift), num, v, w, shift)
  {
    hide Scaled, Pow2;
    MulAdd(q, Pow2(shift), w);
    ScaledDouble(w, shift);
  }

  lemma DividingSkip(q: nat, num: nat, v: nat, w: nat, shift: nat)
    requires Dividing(q, num, v, w, shift + 1) && num < Scaled(w, shift)
    ensures Dividing(q, num, v, w, shift)
  {
  }

  lemma Divided(q: nat, num: nat, v: nat, w: nat)
    requires Dividing(q, num, v, w, 0)
    ensures v / w == q
  {
    DivUnique(v, w, q, num);
  }

  /** A multiple of a power of two is one of half that power; or-ing in the half adds it. */
  lemma OrHalf(x: nat, r: nat)
    requires x < BASE && r < 32 && Rem(x, Pow2(r + 1)) == 0
    ensures BitOr(x, Pow2(r)) == x + Pow2(r) < BASE
    ensures Rem(x, Pow2(r)) == 0 && Rem(x + Pow2(r), Pow2(r)) == 0
  {
    hide Pow2, BitOr, Quot, Rem;
    QuotRem(x, Pow2(r + 1));
    var c, p := Quot(x, Pow2(r + 1)), Pow2(r);
    PowerDouble(r);
    OrDisjoint(c, r + 1, p);
    HalfArithmetic(x, c, p);
    Pow2Add(31 - r, r + 1);
    Pow2Values();
    if c >= Pow2(31 - r) { MulLe(Pow2(31 - r), c, Pow2(r + 1)); }
    MulStep(c, Pow2(31 - r), Pow2(r + 1));
  }

  lemma PowerDouble(r: nat)
    ensures Pow2(r + 1) == 2 * Pow2(r)
  {
  }

  lemma HalfArithmetic(x: nat, c: nat, p: nat)
    requires x == c * (2 * p) && p > 0
    ensures Rem(x, p) == 0 && Rem(x + p, p) == 0
  {
    hide Quot, Rem;
    assert c * (2 * p) == 2 * c * p;
    MulAdd(2 * c, 1, p);
    QuotUnique(x, p, 2 * c, 0);
    QuotUnique(x + p, p, 2 * c + 1, 0);
  }

  lemma ClearLimb(q: seq<nat>, shift: nat)
    requires IsLimbs(q) && LowClear(q, shift + 1) && shift < 32 * |q|
    ensures Rem(q[shift / 32], Pow2(shift % 32 + 1)) == 0
  {
    hide Pow2, Quot, Rem;
    if shift % 32 == 31 { QuotUnique(0, Pow2(32), 0, 0); }
  }

  lemma SetQuotientBit(q: seq<nat>, shift: nat)
    requires IsLimbs(q) && LowClear(q, shift + 1) && shift < 32 * |q|
    ensures var x := BitOr(q[shift / 32], Pow2(shift % 32));
      x < BASE && Val(q[shift / 32 := x]) == Val(q) + Pow2(shift) && LowClear(q[shift / 32 := x], shift)
  {
    hide Pow2, BitOr, Quot, Rem, Val, Pow;
    var j, r := shift / 32, shift % 32;
    ClearLimb(q, shift);
    OrHalf(q[j], r);
    ValUpdate(q, j, q[j] + Pow2(r));
    ShiftPower(j, r);
    assert Pow2(r) * Pow(j) == Pow(j) * Pow2(r);
  }

  lemma SkipQuotientBit(q: seq<nat>, shift: nat)
    requires IsLimbs(q) && LowClear(q, shift + 1) && shift < 32 * |q|
    ensures LowClear(q, shift)
  {
    hide Pow2, BitOr, Quot, Rem;
    ClearLimb(q, shift);
    OrHalf(q[shift / 32], shift % 32);
  }

  lemma IncrementStep(s: seq<nat>, i: nat)
    requires IsLimbs(s) && i < |s|
    ensures var x := (s[i] + 1) % BASE;
      Val(s[i := x]) + (if x == 0 then Pow(i + 1) else 0) == Val(s) + Pow(i)
  {
    hide Pow, Val;
    ValUpdate(s, i, (s[i] + 1) % BASE);
    PowNext(i);
    if s[i] == BASE - 1 { assert (s[i] + 1) % BASE == 0; } else { assert (s[i] + 1) % BASE == s[i] + 1; }
  }

  lemma DecrementStep(s: seq<nat>, i: nat)
    requires IsLimbs(s) && i < |s|
    ensures var x := (s[i] + BASE - 1) % BASE;
      Val(s[i := x]) + Pow(i) == Val(s) + (if x == BASE - 1 then Pow(i + 1) else 0)
  {
    hide Pow, Val;
    ValUpdate(s, i, (s[i] + BASE - 1) % BASE);
    PowNext(i);
    if s[i] == 0 { assert (s[i] + BASE - 1) % BASE == BASE - 1; } else { assert (s[i] + BASE - 1) % BASE == s[i] - 1; }
  }

  lemma ModBelow(x: nat, m: nat, v: int)
    requires x < m && x == v + m
    ensures v % m == x
  {
    ModShift(v, m);
  }

  lemma ModShift(v: int, m: nat)
    requires m > 0 && 0 <= v + m < m
    ensures v % m == v + m
  {
  }

  lemma SubtractMod(v: nat, w: nat, m: nat)
    requires v < m && w < m
    ensures (v + (m - w) % m) % m == (v - w) % m
  {
    if w == 0 {
      DivUnique(m, m, 1, 0);
    } else {
      DivUnique(m - w, m, 0, m - w);
      if v < w {
        ModShift(v - w, m);
        DivUnique(v + m - w, m, 0, v + m - w);
      } else {
        DivUnique(v + m - w, m, 1, v - w);
        DivUnique(v - w, m, 0, v - w);
      }
    }
  }

  /** Two 32-bit numbers added to a product of two more stay below 64 bits. */
  lemma WordProduct(c: nat, d: nat, x: nat, y: nat)
    requires c < BASE && d < BASE && x < BASE && y < BASE
    ensures c + d + x * y < TWO64
  {
    MulLe(x, BASE - 1, y);
    MulLe(y, BASE - 1, BASE - 1);
  }

  lemma ValLow(s: seq<nat>)
    requires |s| >= 2 && forall j :: 2 <= j < |s| ==> s[j] == 0
    ensures Val(s) == s[0] + s[1] * BASE
  {
    hide Pow, Val;
    ValConcat(s[..2], s[2..]);
    assert s[..2] + s[2..] == s;
    ValZero(s[2..]);
    ValSnoc(s, 1);
    ValSnoc(s, 0);
    ValNone(s);
    PowNext(0);
  }
}
