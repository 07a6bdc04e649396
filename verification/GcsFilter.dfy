/**
 Golomb-coded sets, as in BIP 158: hashes of the elements, sorted, stored as differences,
 each with its upper part in unary and its lower bits as they are.  A query walks the
 differences and its own sorted hashes side by side.
 */
module GcsFilter {
  import opened Options
  import opened Arithmetic

  const TWO32: nat := 0x1_0000_0000
  const TWO64: nat := 0x1_0000_0000_0000_0000

  // ----- bit streams

  /** The n least significant bits, most significant first. */
  function BitsOf(x: nat, n: nat): (bits: seq<bool>)
    ensures |bits| == n
  {
    if n == 0 then [] else BitsOf(x / 2, n - 1) + [x % 2 == 1]
  }

  function NumOf(bits: seq<bool>): nat {
    if bits == [] then 0 else 2 * NumOf(bits[..|bits| - 1]) + (if bits[|bits| - 1] then 1 else 0)
  }

  lemma {:induction false} NumOfBits(x: nat, n: nat)
    ensures NumOf(BitsOf(x, n)) == Rem(x, Pow2(n))
  {
    hide Quot, Rem;
    if n == 0 {
      QuotUnique(x, 1, x, 0);
    } else {
      NumOfBits(x / 2, n - 1);
      var p := Pow2(n - 1);
      QuotRem(x / 2, p);
      assert BitsOf(x, n)[..n - 1] == BitsOf(x / 2, n - 1);
      HalfRem(x, p, Quot(x / 2, p), Rem(x / 2, p));
    }
  }

  lemma HalfRem(x: nat, p: nat, q: nat, r: nat)
    requires x / 2 == q * p + r && r < p
    ensures Rem(x, 2 * p) == 2 * r + x % 2
  {
    hide Rem;
    assert q * (2 * p) == 2 * (q * p);
    QuotUnique(x, 2 * p, q, 2 * r + x % 2);
  }

  function Ones(n: nat): seq<bool> { seq(n, i => true) }

  lemma {:induction false} AllOnes(n: nat)
    requires n <= 64
    ensures BitsOf(TWO64 - 1, n) == Ones(n)
  {
    Pow64();
    OnesOf(n, 64);
  }

  lemma {:induction false} OnesOf(n: nat, m: nat)
    requires n <= m
    ensures BitsOf(Pow2(m) - 1, n) == Ones(n)
  {
    if n > 0 {
      var p := Pow2(m - 1);
      OnesOf(n - 1, m - 1);
      BitsOdd(p - 1, n);
      assert Pow2(m) - 1 == 2 * (p - 1) + 1;
      assert Ones(n) == Ones(n - 1) + [true];
    }
  }

  lemma BitsOdd(x: nat, n: nat)
    requires n > 0
    ensures BitsOf(2 * x + 1, n) == BitsOf(x, n - 1) + [true]
  {
    assert (2 * x + 1) / 2 == x && (2 * x + 1) % 2 == 1;
  }

  lemma Pow64()
    ensures Pow2(64) == TWO64
  {
    Pow2Values();
    Pow2Add(32, 32);
  }

  // ----- one number

  /** The code of x: its upper part in ones, a zero, and its lower bits. */
  function Golomb(x: nat, p: nat): seq<bool> { Ones(Quot(x, Pow2(p))) + [false] + BitsOf(x, p) }

  /** Eleven with two low bits: two ones, a zero, and its low bits 11. */
  lemma GolombOfEleven()
    ensures Golomb(11, 2) == [true, true, false, true, true] && Golomb(9, 2) == [true, true, false, false, true]
  {
    assert Pow2(2) == 4;
    QuotUnique(11, 4, 2, 3);
    QuotUnique(9, 4, 2, 1);
    assert BitsOf(11, 2) == [true, true] && BitsOf(9, 2) == [false, true];
  }

  method GolombRiceEncode(bits: seq<bool>, p: nat, x: nat) returns (out: seq<bool>)
    requires p < 64
    ensures out == bits + Golomb(x, p)
  {
    hide Quot, Pow2, BitsOf;
    var q := Quot(x, Pow2(p));
    out := bits;
    while q > 0
      invariant 0 <= q <= Quot(x, Pow2(p)) && out == bits + Ones(Quot(x, Pow2(p)) - q)
    {
      var nbits := if q <= 64 then q else 64;
      AllOnes(nbits);
      out := out + BitsOf(TWO64 - 1, nbits);
      q := q - nbits;
    }
    out := out + [false];
    out := out + BitsOf(x, p);
  }

  /** How many ones stand at a position before the next zero; none if the stream ends first. */
  function Unary(bits: seq<bool>, pos: nat): Option<nat>
    decreases |bits| - pos
  {
    if pos >= |bits| then None
    else if !bits[pos] then Some(0)
    else match Unary(bits, pos + 1) case None => None case Some(n) => Some(n + 1)
  }

  /** The number coded at a position, and where the next one starts. */
  function DecodeAt(bits: seq<bool>, pos: nat, p: nat): Option<(nat, nat)> {
    match Unary(bits, pos)
    case None => None
    case Some(q) =>
      var next := pos + q + 1;
      if next + p > |bits| then None
      else
        MulNat(q, Pow2(p));
        Some((Rem(q * Pow2(p) + NumOf(bits[next..next + p]), TWO64), next + p))
  }

  method GolombRiceDecode(bits: seq<bool>, start: nat, p: nat) returns (r: Option<(nat, nat)>)
    requires p < 64
    ensures r == DecodeAt(bits, start, p)
  {
    hide NumOf, Pow2, Rem;
    var q: nat, pos: nat := 0, start;
    while pos < |bits| && bits[pos]
      invariant pos == start + q
      invariant Unary(bits, start) == match Unary(bits, pos) case None => None case Some(n) => Some(n + q)
      decreases |bits| - pos
    {
      q, pos := q + 1, pos + 1;
    }
    if pos >= |bits| { return None; }
    pos := pos + 1;
    if pos + p > |bits| { return None; }
    MulNat(q, Pow2(p));
    return Some((Rem(q * Pow2(p) + NumOf(bits[pos..pos + p]), TWO64), pos + p));
  }

  ghost predicate At(whole: seq<bool>, i: nat, part: seq<bool>) {
    i + |part| <= |whole| && whole[i..i + |part|] == part
  }

  lemma {:induction false} UnaryOnes(bits: seq<bool>, pos: nat, q: nat)
    requires pos + q < |bits| && (forall i :: pos <= i < pos + q ==> bits[i]) && !bits[pos + q]
    ensures Unary(bits, pos) == Some(q)
    decreases q
  {
    if q > 0 { UnaryOnes(bits, pos + 1, q - 1); }
  }

  /** The three parts of a code, where it stands. */
  lemma CodeParts(bits: seq<bool>, pos: nat, q: nat, low: seq<bool>)
    requires At(bits, pos, Ones(q) + [false] + low)
    ensures pos + q + 1 + |low| <= |bits| && !bits[pos + q] && bits[pos + q + 1..pos + q + 1 + |low|] == low
    ensures forall i :: pos <= i < pos + q ==> bits[i]
  {
    var code := Ones(q) + [false] + low;
    var part := bits[pos..pos + |code|];
    forall i | pos <= i < pos + q ensures bits[i] { assert part[i - pos] == code[i - pos]; }
    assert part[q] == code[q];
    assert part[q + 1..] == code[q + 1..];
    assert part[q + 1..] == bits[pos + q + 1..pos + |code|];
  }

  /** Decoding undoes encoding and uses exactly its bits. */
  lemma DecodeEncode(bits: seq<bool>, pos: nat, p: nat, x: nat)
    requires x < TWO64 && At(bits, pos, Golomb(x, p))
    ensures DecodeAt(bits, pos, p) == Some((x, pos + |Golomb(x, p)|))
  {
    hide NumOf, Pow2, Rem, Quot, BitsOf, At, Unary;
    var q := Quot(x, Pow2(p));
    CodeParts(bits, pos, q, BitsOf(x, p));
    UnaryOnes(bits, pos, q);
    NumOfBits(x, p);
    QuotRem(x, Pow2(p));
    QuotUnique(x, TWO64, 0, x);
  }

  // ----- hashes in a range

  /** The upper 64 bits of a product, from 32-bit halves; no intermediate value exceeds 64 bits. */
  method MapIntoRange(x: nat, n: nat) returns (upper: nat)
    requires x < TWO64 && n < TWO64
    ensures upper == x * n / TWO64 && upper < TWO64 && (n > 0 ==> upper < n)
  {
    var xHi, xLo, nHi, nLo := x / TWO32, x % TWO32, n / TWO32, n % TWO32;
    HalfProduct(xHi, nHi);
    HalfProduct(xHi, nLo);
    HalfProduct(xLo, nHi);
    HalfProduct(xLo, nLo);
    var ac, ad, bc, bd := xHi * nHi, xHi * nLo, xLo * nHi, xLo * nLo;
    assert ac < TWO64 && ad < TWO64 && bc < TWO64 && bd < TWO64;
    var mid34 := bd / TWO32 + bc % TWO32 + ad % TWO32;
    assert mid34 < TWO64;
    upper := ac + bc / TWO32 + ad / TWO32 + mid34 / TWO32;
    Halves(xHi, xLo, nHi, nLo);
    UpperIs(x * n, upper, mid34 % TWO32, bd % TWO32);
    UpperBelow(x, n);
  }

  lemma HalfProduct(a: nat, b: nat)
    requires a < TWO32 && b < TWO32
    ensures 0 <= a * b < TWO64
  {
    MulNat(a, b);
    MulLe(a, TWO32, b);
  }

  lemma Halves(a: nat, b: nat, c: nat, d: nat)
    ensures (a * TWO32 + b) * (c * TWO32 + d) == a * c * TWO64 + (a * d + b * c) * TWO32 + b * d
  {
    MulAdd(a * TWO32, b, c * TWO32 + d);
    assert a * TWO32 * (c * TWO32 + d) == a * c * TWO64 + a * d * TWO32;
    assert b * (c * TWO32 + d) == b * c * TWO32 + b * d;
  }

  lemma UpperIs(product: nat, upper: nat, middle: nat, low: nat)
    requires product == upper * TWO64 + middle * TWO32 + low && middle < TWO32 && low < TWO32
    ensures product / TWO64 == upper
  {
  }

  lemma UpperBelow(x: nat, n: nat)
    requires x < TWO64 && n < TWO64
    ensures x * n / TWO64 < TWO64 && (n > 0 ==> x * n / TWO64 < n)
  {
    MulNat(x, n);
    if n > 0 { MulStep(x, TWO64, n); }
  }

  // ----- a sorted list of numbers

  ghost predicate Sorted(s: seq<nat>) { forall i, j :: 0 <= i <= j < |s| ==> s[i] <= s[j] }

  /** The codes of the differences. */
  function Stream(values: seq<nat>, last: nat, p: nat): seq<bool>
    requires Sorted([last] + values)
  {
    if values == [] then [] else
    SortedTail(last, values);
    Golomb(values[0] - last, p) + Stream(values[1..], values[0], p)
  }

  lemma SortedTail(last: nat, values: seq<nat>)
    requires values != [] && Sorted([last] + values)
    ensures last <= values[0] && Sorted([values[0]] + values[1..])
  {
    var s := [last] + values;
    assert s[0] == last && s[1] == values[0];
    assert [values[0]] + values[1..] == s[1..];
  }

  /** What the code of n numbers stands for, and where it ends; sums are of 64 bits. */
  function DecodeAll(bits: seq<bool>, pos: nat, p: nat, n: nat, last: nat): Option<(seq<nat>, nat)>
    decreases n
  {
    if n == 0 then Some(([], pos)) else
    match DecodeAt(bits, pos, p)
    case None => None
    case Some((delta, next)) =>
      var value := (last + delta) % TWO64;
      match DecodeAll(bits, next, p, n - 1, value)
      case None => None
      case Some((rest, end)) => Some(([value] + rest, end))
  }

  lemma {:induction false} DecodeAllLength(bits: seq<bool>, pos: nat, p: nat, n: nat, last: nat)
    ensures DecodeAll(bits, pos, p, n, last).Some? ==> |DecodeAll(bits, pos, p, n, last).value.0| == n
    decreases n
  {
    hide DecodeAt;
    if n > 0 && DecodeAt(bits, pos, p).Some? {
      var (delta, next) := DecodeAt(bits, pos, p).value;
      DecodeAllLength(bits, next, p, n - 1, (last + delta) % TWO64);
    }
  }

  /** The differences give the sorted list back. */
  lemma {:induction false} DecodeStream(bits: seq<bool>, pos: nat, p: nat, values: seq<nat>, last: nat)
    requires Sorted([last] + values) && (forall i :: 0 <= i < |values| ==> values[i] < TWO64)
    requires At(bits, pos, Stream(values, last, p))
    ensures DecodeAll(bits, pos, p, |values|, last) == Some((values, pos + |Stream(values, last, p)|))
    decreases |values|
  {
    hide DecodeAt, Golomb;
    if values != [] {
      SortedTail(last, values);
      var delta := values[0] - last;
      var code, rest := Golomb(delta, p), Stream(values[1..], values[0], p);
      assert bits[pos..pos + |code|] == (code + rest)[..|code|];
      assert bits[pos + |code|..pos + |code| + |rest|] == (code + rest)[|code|..];
      DecodeEncode(bits, pos, p, delta);
      DecodeStream(bits, pos + |code|, p, values[1..], values[0]);
      assert (last + delta) % TWO64 == values[0];
      assert [values[0]] + values[1..] == values;
    }
  }

  ghost predicate Meet(a: seq<nat>, b: seq<nat>) { exists i, j :: 0 <= i < |a| && 0 <= j < |b| && a[i] == b[j] }

  // ----- filters

  type Element = seq<bv8>

  datatype Params = Params(p: nat, m: nat, hash: Element -> nat)

  /** The number of elements, their range, and the code, in whole bytes. */
  datatype Filter = Filter(n: nat, f: nat, bits: seq<bool>)

  function HashIn(params: Params, f: nat, e: Element): nat {
    MulNat(params.hash(e) % TWO64, f);
    params.hash(e) % TWO64 * f / TWO64
  }

  method HashToRange(params: Params, f: nat, e: Element) returns (h: nat)
    requires f < TWO64
    ensures h == HashIn(params, f, e) < TWO64 && (f > 0 ==> h < f)
    ensures var x := params.hash(e) % 0x1_0000_0000_0000_0000;
            h * 0x1_0000_0000_0000_0000 <= x * f < (h + 1) * 0x1_0000_0000_0000_0000
  {
    h := MapIntoRange(params.hash(e) % TWO64, f);
    MulNat(params.hash(e) % TWO64, f);
    DivMod(params.hash(e) % TWO64 * f, TWO64);
  }

  /** The elements with this hash. */
  ghost function WithHash(params: Params, f: nat, elements: set<Element>, v: nat): set<Element> {
    set e | e in elements && HashIn(params, f, e) == v
  }

  /** Each number is listed once for each element with this hash. */
  ghost predicate CountsOf(params: Params, f: nat, elements: set<Element>, values: seq<nat>) {
    forall v :: multiset(values)[v] == |WithHash(params, f, elements, v)|
  }

  lemma CountsMore(params: Params, f: nat, done: set<Element>, e: Element, before: seq<nat>, after: seq<nat>)
    requires CountsOf(params, f, done, before) && e !in done
    requires multiset(after) == multiset(before) + multiset{HashIn(params, f, e)}
    ensures CountsOf(params, f, done + {e}, after)
  {
    hide HashIn, WithHash;
    forall v: nat ensures multiset(after)[v] == |WithHash(params, f, done + {e}, v)| {
      WithHashMore(params, f, done, e, v);
    }
  }

  lemma WithHashMore(params: Params, f: nat, done: set<Element>, e: Element, v: nat)
    requires e !in done
    ensures |WithHash(params, f, done + {e}, v)| ==
            |WithHash(params, f, done, v)| + if HashIn(params, f, e) == v then 1 else 0
  {
    hide HashIn;
    var was, now := WithHash(params, f, done, v), WithHash(params, f, done + {e}, v);
    assert now == was + if HashIn(params, f, e) == v then {e} else {};
  }

  /** Both the hashes of the elements, and nothing else. */
  ghost predicate HashesOf(params: Params, f: nat, elements: set<Element>, values: seq<nat>) {
    && (forall e :: e in elements ==> HashIn(params, f, e) in values)
    && (forall v :: v in values ==> exists e :: e in elements && HashIn(params, f, e) == v)
  }

  lemma CountsNone(params: Params, f: nat)
    ensures CountsOf(params, f, {}, [])
  {
    forall v: nat ensures WithHash(params, f, {}, v) == {} {}
  }

  lemma HashesNone(params: Params, f: nat)
    ensures HashesOf(params, f, {}, [])
  {
  }

  lemma HashesMore(params: Params, f: nat, done: set<Element>, e: Element, before: seq<nat>, after: seq<nat>)
    requires HashesOf(params, f, done, before) && forall v :: v in after <==> v == HashIn(params, f, e) || v in before
    ensures HashesOf(params, f, done + {e}, after)
  {
    hide HashIn;
  }

  method InsertSorted(s: seq<nat>, x: nat) returns (t: seq<nat>)
    requires Sorted(s)
    ensures Sorted(t) && |t| == |s| + 1 && forall v :: v in t <==> v == x || v in s
    ensures multiset(t) == multiset(s) + multiset{x}
  {
    var i := 0;
    while i < |s| && s[i] < x
      invariant 0 <= i <= |s| && forall j :: 0 <= j < i ==> s[j] < x
    {
      i := i + 1;
    }
    t := s[..i] + [x] + s[i..];
    InsertedAt(s, i, x);
  }

  lemma InsertedAt(s: seq<nat>, i: nat, x: nat)
    requires i <= |s|
    ensures var t := s[..i] + [x] + s[i..];
            multiset(t) == multiset(s) + multiset{x} && forall v :: v in t <==> v == x || v in s
  {
    var t := s[..i] + [x] + s[i..];
    assert s == s[..i] + s[i..];
    assert multiset(t) == multiset(s[..i]) + multiset{x} + multiset(s[i..]);
    forall v: nat ensures v in t <==> v == x || v in s { assert v in t <==> v in multiset(t); }
  }

  lemma SortedNone()
    ensures Sorted([])
  {
  }

  method BuildHashedSet(params: Params, f: nat, elements: set<Element>) returns (values: seq<nat>)
    requires f < TWO64
    ensures Sorted(values) && |values| == |elements| && HashesOf(params, f, elements, values)
    ensures CountsOf(params, f, elements, values)
    ensures forall v :: v in values ==> v < TWO64
  {
    hide HashIn, HashesOf, CountsOf, Sorted;
    values := [];
    SortedNone();
    var rest := elements;
    assert elements - elements == {};
    HashesNone(params, f);
    CountsNone(params, f);
    while rest != {}
      invariant rest <= elements && Sorted(values) && |values| == |elements - rest|
      invariant HashesOf(params, f, elements - rest, values) && CountsOf(params, f, elements - rest, values)
      invariant forall v :: v in values ==> v < TWO64
      decreases |rest|
    {
      var e :| e in rest;
      var h := HashToRange(params, f, e);
      ghost var before := values;
      values := InsertSorted(values, h);
      HashesMore(params, f, elements - rest, e, before, values);
      CountsMore(params, f, elements - rest, e, before, values);
      assert elements - (rest - {e}) == (elements - rest) + {e};
      rest := rest - {e};
    }
    assert elements - {} == elements;
  }

  /** The filter codes these sorted numbers, padded with zeros to whole bytes. */
  ghost predicate Codes(params: Params, filter: Filter, values: seq<nat>) {
    && Sorted([0] + values) && (forall i :: 0 <= i < |values| ==> values[i] < TWO64)
    && filter.n == |values| && filter.f == filter.n * params.m
    && var code := Stream(values, 0, params.p);
       At(filter.bits, 0, code) && |filter.bits| == (|code| + 7) / 8 * 8
  }

  /** Codes the differences of a sorted list. */
  method EncodeAll(hashes: seq<nat>, p: nat) returns (bits: seq<bool>)
    requires p < 64 && Sorted([0] + hashes)
    ensures bits == Stream(hashes, 0, p)
  {
    hide Golomb;
    bits := [];
    var last, i := 0, 0;
    while i < |hashes|
      invariant 0 <= i <= |hashes| && Sorted([last] + hashes[i..])
      invariant bits + Stream(hashes[i..], last, p) == Stream(hashes, 0, p)
    {
      SortedTail(last, hashes[i..]);
      assert hashes[i..][1..] == hashes[i + 1..];
      var value := hashes[i];
      bits := GolombRiceEncode(bits, p, value - last);
      last, i := value, i + 1;
    }
    assert hashes[i..] == [];
  }

  /** A filter for a set of elements, unless there are too many. */
  method FromElements(params: Params, elements: set<Element>) returns (r: Option<Filter>, ghost values: seq<nat>)
    requires params.p < 64 && params.m < TWO32
    ensures r.None? <==> |elements| >= TWO32
    ensures r.Some? ==> r.value.n == |elements| && Codes(params, r.value, values)
    ensures r.Some? ==> HashesOf(params, r.value.f, elements, values) && CountsOf(params, r.value.f, elements, values)
    ensures r.Some? ==> r.value.f < TWO64
  {
    hide HashesOf, CountsOf, HashIn, Stream, Sorted, At;
    values := [];
    var n := |elements|;
    if n >= TWO32 { return None, []; }
    HalfProduct(n, params.m);
    var f := n * params.m;
    var hashes := BuildHashedSet(params, f, elements);
    values := hashes;
    SortedFromZero(values);
    var bits := EncodeAll(hashes, params.p);
    var padded := bits + seq((8 - |bits| % 8) % 8, k => false);
    PaddedAt(bits, padded);
    r := Some(Filter(n, f, padded));
  }

  lemma SortedFromZero(values: seq<nat>)
    requires Sorted(values) && forall v :: v in values ==> v < TWO64
    ensures Sorted([0] + values) && forall i :: 0 <= i < |values| ==> values[i] < TWO64
  {
    forall i | 0 <= i < |values| ensures values[i] < TWO64 { assert values[i] in values; }
  }

  lemma PaddedAt(code: seq<bool>, padded: seq<bool>)
    requires padded == code + seq((8 - |code| % 8) % 8, k => false)
    ensures At(padded, 0, code) && |padded| == (|code| + 7) / 8 * 8
  {
    assert padded[0..0 + |code|] == code;
  }

  /** Reads a filter: exactly n numbers must be coded, with less than a byte left over. */
  method FromEncoding(params: Params, n: nat, bits: seq<bool>) returns (r: Option<Filter>)
    requires params.p < 64 && params.m < TWO32
    ensures r == if n < TWO32 && DecodeAll(bits, 0, params.p, n, 0).Some?
                    && |bits| - DecodeAll(bits, 0, params.p, n, 0).value.1 < 8
                 then Some(Filter(n, n * params.m, bits)) else None
    ensures r.Some? ==> |DecodeAll(bits, 0, params.p, n, 0).value.0| == n
  {
    hide DecodeAt;
    if n >= TWO32 { return None; }
    var i, pos: nat := 0, 0;
    ghost var last: nat := 0;
    while i < n
      invariant 0 <= i <= n
      invariant DecodeAll(bits, 0, params.p, n, 0).Some? <==> DecodeAll(bits, pos, params.p, n - i, last).Some?
      invariant DecodeAll(bits, 0, params.p, n, 0).Some? ==>
        DecodeAll(bits, 0, params.p, n, 0).value.1 == DecodeAll(bits, pos, params.p, n - i, last).value.1
    {
      var one := GolombRiceDecode(bits, pos, params.p);
      if one.None? { return None; }
      last := (last + one.value.0) % TWO64;
      pos := one.value.1;
      i := i + 1;
    }
    if |bits| - pos >= 8 { return None; }
    DecodeAllLength(bits, 0, params.p, n, 0);
    r := Some(Filter(n, n * params.m, bits));
  }

  /** What was built can be read back. */
  lemma ReadBack(params: Params, filter: Filter, values: seq<nat>)
    requires Codes(params, filter, values)
    ensures DecodeAll(filter.bits, 0, params.p, filter.n, 0) == Some((values, |Stream(values, 0, params.p)|))
    ensures |filter.bits| - |Stream(values, 0, params.p)| < 8
  {
    hide DecodeAll, Stream, Sorted, At;
    DecodeStream(filter.bits, 0, params.p, values, 0);
  }

  // ----- queries

  ghost predicate Remaining(bits: seq<bool>, pos: nat, p: nat, i: nat, last: nat, all: seq<nat>) {
    i <= |all| && var rest := DecodeAll(bits, pos, p, |all| - i, last); rest.Some? && rest.value.0 == all[i..]
  }

  lemma RemainingMore(bits: seq<bool>, pos: nat, p: nat, i: nat, last: nat, all: seq<nat>)
    requires Remaining(bits, pos, p, i, last, all) && i < |all|
    ensures var one := DecodeAt(bits, pos, p);
      one.Some? && all[i] == (last + one.value.0) % TWO64 && Remaining(bits, one.value.1, p, i + 1, all[i], all)
  {
    hide DecodeAt;
    var one := DecodeAt(bits, pos, p);
    var rest := DecodeAll(bits, pos, p, |all| - i, last).value.0;
    assert rest == all[i..] && all[i] == rest[0] && all[i + 1..] == rest[1..];
    var tail := DecodeAll(bits, one.value.1, p, |all| - i - 1, rest[0]).value.0;
    assert rest == [rest[0]] + tail;
  }

  /** No query is among the first i values. */
  ghost predicate Apart(queries: seq<nat>, values: seq<nat>, i: nat)
    requires i <= |values|
  {
    forall a, b :: 0 <= a < |queries| && 0 <= b < i ==> queries[a] != values[b]
  }

  lemma NoneMeet(queries: seq<nat>, values: seq<nat>, i: nat)
    requires i < |values| && Sorted(values) && Apart(queries, values, i)
    requires forall a :: 0 <= a < |queries| ==> queries[a] < values[i]
    ensures !Meet(queries, values)
  {
    forall a, b | 0 <= a < |queries| && 0 <= b < |values| ensures queries[a] != values[b] {
      if b >= i { assert values[i] <= values[b]; }
    }
  }

  lemma ApartMore(queries: seq<nat>, values: seq<nat>, i: nat, k: nat)
    requires i < |values| && k < |queries| && Sorted(queries) && Apart(queries, values, i)
    requires values[i] < queries[k] && forall a :: 0 <= a < k ==> queries[a] < values[i]
    ensures Apart(queries, values, i + 1)
  {
    forall a | k <= a < |queries| ensures queries[a] > values[i] { assert queries[k] <= queries[a]; }
  }

  /** Whether the sorted queries and the numbers of the filter have one in common.  A yes is
      always right; a no is when the numbers read are in order, as they are unless their sums wrap. */
  method MatchInternal(params: Params, filter: Filter, queries: seq<nat>, ghost values: seq<nat>) returns (found: bool)
    requires params.p < 64 && Sorted(queries)
    requires filter.n == |values| && Remaining(filter.bits, 0, params.p, 0, 0, values)
    ensures found ==> Meet(queries, values)
    ensures Sorted(values) && Meet(queries, values) ==> found
  {
    hide DecodeAt, Remaining, Sorted, Apart;
    ghost var ordered := Sorted(values);
    var value: nat, pos: nat, k, i := 0, 0, 0, 0;
    ApartNone(queries, values);
    while i < filter.n
      invariant 0 <= i <= filter.n && 0 <= k <= |queries|
      invariant Remaining(filter.bits, pos, params.p, i, value, values)
      invariant ordered ==> Apart(queries, values, i)
      invariant ordered && i > 0 ==> forall a :: 0 <= a < k ==> queries[a] < values[i - 1]
      invariant i == 0 ==> k == 0
    {
      RemainingMore(filter.bits, pos, params.p, i, value, values);
      var one := GolombRiceDecode(filter.bits, pos, params.p);
      value := (value + one.value.0) % TWO64;
      pos := one.value.1;
      if ordered { Growing(values, i); }
      while true
        invariant 0 <= k <= |queries| && (ordered ==> forall a :: 0 <= a < k ==> queries[a] < value)
        decreases |queries| - k
      {
        if k == |queries| {
          if ordered { NoneMeet(queries, values, i); }
          return false;
        } else if queries[k] == value {
          return true;
        } else if queries[k] > value {
          break;
        }
        k := k + 1;
      }
      if ordered { ApartMore(queries, values, i, k); }
      i := i + 1;
    }
    ApartAll(queries, values);
    return false;
  }

  lemma ApartNone(queries: seq<nat>, values: seq<nat>)
    ensures Apart(queries, values, 0)
  {
  }

  lemma ApartAll(queries: seq<nat>, values: seq<nat>)
    ensures Apart(queries, values, |values|) ==> !Meet(queries, values)
  {
  }

  lemma Growing(values: seq<nat>, i: nat)
    requires Sorted(values) && i < |values|
    ensures i > 0 ==> values[i - 1] <= values[i]
  {
  }

  /** The element's hash is among those of the elements the filter was built from. */
  method Match(params: Params, filter: Filter, e: Element, ghost elements: set<Element>, ghost values: seq<nat>)
    returns (found: bool)
    requires params.p < 64 && filter.f < TWO64
    requires Codes(params, filter, values) && HashesOf(params, filter.f, elements, values)
    ensures found <==> exists x :: x in elements && HashIn(params, filter.f, x) == HashIn(params, filter.f, e)
    ensures e in elements ==> found
  {
    hide DecodeAll, HashIn;
    var query := HashToRange(params, filter.f, e);
    CodesRemaining(params, filter, values);
    found := MatchInternal(params, filter, [query], values);
    MeetHashes(params, filter.f, {e}, [query], elements, values);
  }

  /** Some query matches, as if each were asked on its own. */
  method MatchAny(params: Params, filter: Filter, asked: set<Element>, ghost elements: set<Element>,
                  ghost values: seq<nat>)
    returns (found: bool)
    requires params.p < 64 && filter.f < TWO64
    requires Codes(params, filter, values) && HashesOf(params, filter.f, elements, values)
    ensures found <==>
              exists e, x :: e in asked && x in elements && HashIn(params, filter.f, x) == HashIn(params, filter.f, e)
  {
    hide DecodeAll, HashIn, HashesOf;
    var queries := BuildHashedSet(params, filter.f, asked);
    CodesRemaining(params, filter, values);
    found := MatchInternal(params, filter, queries, values);
    MeetHashes(params, filter.f, asked, queries, elements, values);
  }

  lemma CodesRemaining(params: Params, filter: Filter, values: seq<nat>)
    requires Codes(params, filter, values)
    ensures Sorted(values) && Remaining(filter.bits, 0, params.p, 0, 0, values)
  {
    ReadBack(params, filter, values);
    assert values == ([0] + values)[1..];
  }

  lemma MeetHashes(params: Params, f: nat, asked: set<Element>, queries: seq<nat>, elements: set<Element>,
                   values: seq<nat>)
    requires HashesOf(params, f, asked, queries) && HashesOf(params, f, elements, values)
    ensures Meet(queries, values) <==>
              exists e, x :: e in asked && x in elements && HashIn(params, f, x) == HashIn(params, f, e)
  {
    hide HashIn;
    if Meet(queries, values) {
      var i, j :| 0 <= i < |queries| && 0 <= j < |values| && queries[i] == values[j];
      assert queries[i] in queries && values[j] in values;
      var e :| e in asked && HashIn(params, f, e) == queries[i];
      var x :| x in elements && HashIn(params, f, x) == values[j];
    }
    if e, x :| e in asked && x in elements && HashIn(params, f, x) == HashIn(params, f, e) {
      assert HashIn(params, f, e) in queries && HashIn(params, f, x) in values;
    }
  }
}
