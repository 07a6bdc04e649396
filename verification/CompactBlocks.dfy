/**
 Compact block relay, as in BIP 152: a block is sent as short ids of its transactions, some
 given in full; the receiver finds what it can among its own and asks for the rest by index.
 */
module CompactBlocks {

  import opened Options
  import opened Sets

  const MAX16: nat := 0xFFFF
  const TWO64: nat := 0x1_0000_0000_0000_0000
  const MAX_TRANSACTIONS: nat := 4_000_000 / 40

  // ----- lists of indexes, as differences

  ghost predicate Increasing(s: seq<nat>) { forall i, j :: 0 <= i < j < |s| ==> s[i] < s[j] }

  ghost predicate Are16Bit(s: seq<nat>) { forall i :: 0 <= i < |s| ==> s[i] <= MAX16 }

  /** What is written for entry i: the gap since the entry before, in unsigned 64 bits. */
  function Gap(s: seq<nat>, i: nat): nat
    requires i < |s|
  {
    if i == 0 then s[0] else (s[i] - (s[i - 1] + 1)) % TWO64
  }

  /** Entry i is one more than the entry before plus the gap. */
  predicate SumAt(gaps: seq<nat>, sums: seq<nat>, i: nat)
    requires i < |sums| <= |gaps|
  {
    sums[i] == gaps[i] + if i == 0 then 0 else sums[i - 1] + 1
  }

  ghost predicate Sums(gaps: seq<nat>, sums: seq<nat>) {
    |sums| <= |gaps| && forall i :: 0 <= i < |sums| ==> SumAt(gaps, sums, i)
  }

  ghost predicate Gaps(s: seq<nat>, gaps: seq<nat>) {
    && |s| == |gaps| && (s != [] ==> gaps[0] == s[0])
    && forall i :: 0 < i < |s| ==> gaps[i] == (s[i] as int - (s[i - 1] + 1)) % 0x1_0000_0000_0000_0000
  }

  /** Some increasing list of 16-bit numbers has these gaps. */
  ghost predicate Sensible(gaps: seq<nat>) { exists s :: Are16Bit(s) && Increasing(s) && Gaps(s, gaps) }

  method WriteIndexes(indexes: seq<nat>) returns (out: seq<nat>)
    ensures Gaps(indexes, out)
  {
    out := [];
    for i := 0 to |indexes|
      invariant |out| == i && forall j :: 0 <= j < i ==> out[j] == Gap(indexes, j)
    {
      var previous: int := if i == 0 then 0 else indexes[i - 1] + 1;
      out := out + [if i == 0 then indexes[0] else (indexes[i] - previous) % TWO64];
    }
  }

  /** Every entry fits 16 bits, and so do the sums. */
  method ReadIndexes(input: seq<nat>) returns (r: Option<seq<nat>>)
    ensures r.Some? ==> |r.value| == |input| && Are16Bit(r.value) && Increasing(r.value) && Sums(input, r.value)
    ensures r.None? ==> !Sensible(input)
  {
    var indexes: seq<nat> := [];
    while |indexes| < |input|
      invariant |indexes| <= |input| && indexes == input[..|indexes|] && Are16Bit(indexes)
    {
      // a thousand entries at a time
      var size := if 1000 + |indexes| < |input| then 1000 + |indexes| else |input|;
      while |indexes| < size
        invariant |indexes| <= size <= |input| && indexes == input[..|indexes|] && Are16Bit(indexes)
      {
        var index := input[|indexes|];
        if index > MAX16 {
          GapTooLarge(input, |indexes|);
          return None;
        }
        indexes := indexes + [index];
      }
    }
    assert indexes == input;
    var offset := 0;
    var sums: seq<nat> := [];
    for j := 0 to |indexes|
      invariant |sums| == j && Are16Bit(sums) && Increasing(sums)
      invariant offset == if j == 0 then 0 else sums[j - 1] + 1
      invariant Sums(input, sums)
    {
      if indexes[j] + offset > MAX16 {
        SumTooLarge(input, sums, j);
        return None;
      }
      ghost var before := sums;
      sums := sums + [indexes[j] + offset];
      forall i | 0 <= i <= j ensures SumAt(input, sums, i) { assert i < j ==> SumAt(input, before, i); }
      offset := sums[j] + 1;
    }
    return Some(sums);
  }

  lemma GapTooLarge(input: seq<nat>, k: nat)
    requires k < |input| && input[k] > MAX16
    ensures !Sensible(input)
  {
    forall s | Are16Bit(s) && Increasing(s) && Gaps(s, input) ensures false { SmallGap(s, k); }
  }

  lemma SmallGap(s: seq<nat>, k: nat)
    requires Are16Bit(s) && Increasing(s) && k < |s|
    ensures Gap(s, k) <= MAX16
  {
    assert k > 0 ==> s[k - 1] < s[k];
  }

  lemma GapBack(s: seq<nat>, k: nat)
    requires Are16Bit(s) && k < |s| && Gap(s, k) <= MAX16
    ensures SumAt(seq(|s|, i requires 0 <= i < |s| => Gap(s, i)), s, k)
  {
  }

  /** Lists with the same gaps are the same, as far as the gaps are small. */
  lemma {:induction false} SumsAre(gaps: seq<nat>, sums: seq<nat>, s: seq<nat>, j: nat)
    requires j <= |sums| <= |gaps| && Sums(gaps, sums) && Are16Bit(s) && Gaps(s, gaps)
    requires forall i :: 0 <= i < j ==> gaps[i] <= MAX16
    ensures sums[..j] == s[..j]
    decreases j
  {
    if j > 0 {
      SumsAre(gaps, sums, s, j - 1);
      GapBack(s, j - 1);
      assert SumAt(gaps, sums, j - 1);
      assert j > 1 ==> sums[j - 2] == sums[..j - 1][j - 2] && s[j - 2] == s[..j - 1][j - 2];
      assert sums[j - 1] == s[j - 1];
      assert sums[..j] == sums[..j - 1] + [sums[j - 1]] && s[..j] == s[..j - 1] + [s[j - 1]];
    }
  }

  lemma SumTooLarge(input: seq<nat>, sums: seq<nat>, j: nat)
    requires j < |input| && |sums| == j && Sums(input, sums)
    requires input[j] + (if j == 0 then 0 else sums[j - 1] + 1) > MAX16
    ensures !Sensible(input)
  {
    forall s | Are16Bit(s) && Increasing(s) && Gaps(s, input) ensures false {
      forall i | 0 <= i < |s| ensures input[i] <= MAX16 { SmallGap(s, i); }
      SumsAre(input, sums, s, j);
      assert j > 0 ==> sums[j - 1] == sums[..j][j - 1] && s[j - 1] == s[..j][j - 1];
      GapBack(s, j);
    }
  }

  /** Reading undoes writing for every strictly increasing list of 16-bit numbers, and for no other. */
  method IndexRoundTrip(indexes: seq<nat>) returns (r: Option<seq<nat>>)
    requires Are16Bit(indexes)
    ensures r == Some(indexes) <==> Increasing(indexes)
    ensures r.Some? ==> r.value == indexes
  {
    var out := WriteIndexes(indexes);
    r := ReadIndexes(out);
    if r.Some? {
      forall i | 0 <= i < |out| ensures out[i] <= MAX16 { assert SumAt(out, r.value, i); }
      SumsAre(out, r.value, indexes, |out|);
      assert r.value[..|out|] == r.value && indexes[..|out|] == indexes;
    }
  }

  // ----- slots

  type Tx = nat

  datatype Slot = Missing | Have(tx: Tx)

  ghost function Held(slots: seq<Slot>): nat {
    if slots == [] then 0 else Held(slots[..|slots| - 1]) + if slots[|slots| - 1].Have? then 1 else 0
  }

  lemma {:induction false} HeldUpdate(slots: seq<Slot>, i: nat, x: Slot)
    requires i < |slots|
    ensures Held(slots[i := x]) == Held(slots) - (if slots[i].Have? then 1 else 0) + (if x.Have? then 1 else 0)
  {
    var n := |slots| - 1;
    if i < n {
      HeldUpdate(slots[..n], i, x);
      assert slots[i := x][..n] == slots[..n][i := x];
    } else {
      assert slots[i := x][..n] == slots[..n];
    }
  }

  lemma {:induction false} HeldNone(slots: seq<Slot>)
    requires forall i :: 0 <= i < |slots| ==> slots[i].Missing?
    ensures Held(slots) == 0
  {
    if slots != [] { HeldNone(slots[..|slots| - 1]); }
  }

  /** The empty slots from a position on, in order. */
  function Free(slots: seq<Slot>, from: nat): seq<nat>
    decreases |slots| - from
  {
    if from >= |slots| then []
    else if slots[from].Missing? then [from] + Free(slots, from + 1)
    else Free(slots, from + 1)
  }

  lemma {:induction false} FreeAre(slots: seq<Slot>, from: nat)
    requires from <= |slots|
    ensures Increasing(Free(slots, from))
    ensures forall k :: 0 <= k < |Free(slots, from)| ==>
              from <= Free(slots, from)[k] < |slots| && slots[Free(slots, from)[k]].Missing?
    ensures forall i :: from <= i < |slots| && slots[i].Missing? ==> i in Free(slots, from)
    decreases |slots| - from
  {
    hide Free;
    FreeUnfolds(slots, from);
    if from < |slots| {
      FreeAre(slots, from + 1);
      var rest, all := Free(slots, from + 1), Free(slots, from);
      if slots[from].Missing? {
        forall k | 0 <= k < |all|
          ensures from <= all[k] < |slots| && slots[all[k]].Missing? && (k > 0 ==> from < all[k])
        {
          assert k > 0 ==> all[k] == rest[k - 1];
        }
        forall i, j | 0 <= i < j < |all| ensures all[i] < all[j] {
          assert all[j] == rest[j - 1] && (i > 0 ==> all[i] == rest[i - 1]);
        }
        forall i | from <= i < |slots| && slots[i].Missing? ensures i in all { assert i > from ==> i in rest; }
      }
    }
  }

  lemma FreeUnfolds(slots: seq<Slot>, from: nat)
    requires from <= |slots|
    ensures Free(slots, from) ==
      if from == |slots| then [] else (if slots[from].Missing? then [from] else []) + Free(slots, from + 1)
  {
  }

  /** Empty and held slots are all there are. */
  lemma {:induction false} FreeCount(slots: seq<Slot>, from: nat)
    requires from <= |slots|
    ensures |Free(slots, from)| + Held(slots) == |slots| - from + Held(slots[..from])
    decreases |slots| - from
  {
    if from < |slots| {
      FreeCount(slots, from + 1);
      assert slots[..from + 1][..from] == slots[..from];
    } else {
      assert slots[..from] == slots;
    }
  }

  // ----- the message

  datatype Prefilled = Prefilled(index: nat, tx: Slot)

  /** Short ids, and transactions in full at positions given as differences. */
  datatype Message = Message(shortIds: seq<nat>, prefilled: seq<Prefilled>)

  datatype Status = Ok | Invalid | Failed | CheckBlockFailed

  /** The position of a given transaction. */
  function Place(prefilled: seq<Prefilled>, i: nat): (p: nat)
    requires i < |prefilled|
    ensures p >= i
  {
    if i == 0 then prefilled[0].index else Place(prefilled, i - 1) + prefilled[i].index + 1
  }

  lemma {:induction false} PlacesGrow(prefilled: seq<Prefilled>, i: nat, j: nat)
    requires i < j < |prefilled|
    ensures Place(prefilled, i) < Place(prefilled, j)
    decreases j
  {
    if i < j - 1 { PlacesGrow(prefilled, i, j - 1); }
  }

  /** The given transactions exist, their positions fit 16 bits, and before each there are enough short ids. */
  ghost predicate GoodAt(m: Message, i: nat)
    requires i < |m.prefilled|
  {
    m.prefilled[i].tx.Have? && Place(m.prefilled, i) <= MAX16 && Place(m.prefilled, i) <= |m.shortIds| + i
  }

  ghost predicate Good(m: Message) { forall i :: 0 <= i < |m.prefilled| ==> GoodAt(m, i) }

  /** The first n given transactions are in place, and nothing else is. */
  ghost predicate Placed(m: Message, slots: seq<Slot>, n: nat)
    requires n <= |m.prefilled|
  {
    && |slots| == |m.shortIds| + |m.prefilled| && Held(slots) == n
    && (forall i :: 0 <= i < n ==> Place(m.prefilled, i) < |slots| && slots[Place(m.prefilled, i)] == m.prefilled[i].tx)
    && (forall k :: 0 <= k < |slots| && slots[k].Have? ==> exists i :: 0 <= i < n && Place(m.prefilled, i) == k)
  }

  lemma PlacedMore(m: Message, slots: seq<Slot>, n: nat)
    requires n < |m.prefilled| && Placed(m, slots, n) && GoodAt(m, n)
    ensures Place(m.prefilled, n) < |slots| && Placed(m, slots[Place(m.prefilled, n) := m.prefilled[n].tx], n + 1)
  {
    var p := Place(m.prefilled, n);
    forall i | 0 <= i < n ensures Place(m.prefilled, i) < p { PlacesGrow(m.prefilled, i, n); }
    HeldUpdate(slots, p, m.prefilled[n].tx);
    var next := slots[p := m.prefilled[n].tx];
    forall k | 0 <= k < |next| && next[k].Have? ensures exists i :: 0 <= i < n + 1 && Place(m.prefilled, i) == k {
      if k == p { assert Place(m.prefilled, n) == k; } else { assert slots[k].Have?; }
    }
  }

  method PlacePrefilled(m: Message) returns (ok: bool, slots: seq<Slot>)
    ensures ok <==> Good(m)
    ensures ok ==> Placed(m, slots, |m.prefilled|)
  {
    hide Placed;
    slots := seq(|m.shortIds| + |m.prefilled|, i => Missing);
    PlacedNone(m, slots);
    var last: int := -1;
    for i := 0 to |m.prefilled|
      invariant Placed(m, slots, i) && forall j :: 0 <= j < i ==> GoodAt(m, j)
      invariant last == if i == 0 then -1 else Place(m.prefilled, i - 1)
    {
      if m.prefilled[i].tx.Missing? {
        assert !GoodAt(m, i);
        return false, slots;
      }
      last := last + m.prefilled[i].index + 1;
      assert last == Place(m.prefilled, i);
      if last > MAX16 {
        assert !GoodAt(m, i);
        return false, slots;
      }
      if last > |m.shortIds| + i {
        assert !GoodAt(m, i);
        return false, slots;
      }
      PlacedMore(m, slots, i);
      slots := slots[last := m.prefilled[i].tx];
    }
    ok := true;
  }

  lemma PlacedNone(m: Message, slots: seq<Slot>)
    requires |slots| == |m.shortIds| + |m.prefilled| && forall i :: 0 <= i < |slots| ==> slots[i].Missing?
    ensures Placed(m, slots, 0)
  {
    HeldNone(slots);
  }

  // ----- short ids and the slots they stand for

  ghost predicate Distinct(s: seq<nat>) { forall i, j :: 0 <= i < j < |s| ==> s[i] != s[j] }

  /** The first n short ids, one to one with the first n places. */
  ghost predicate Pairs(ids: map<nat, nat>, shortIds: seq<nat>, free: seq<nat>, n: nat)
    requires n <= |shortIds| && n <= |free|
  {
    && (forall j :: 0 <= j < n ==> shortIds[j] in ids && ids[shortIds[j]] == free[j])
    && (forall x :: x in ids ==> exists j :: 0 <= j < n && shortIds[j] == x)
  }

  lemma FreeStep(slots: seq<Slot>, k: nat)
    requires Free(slots, k) != []
    ensures k < |slots|
    ensures Free(slots, k) == if slots[k].Missing? then [k] + Free(slots, k + 1) else Free(slots, k + 1)
  {
  }

  /** Short ids so far: as many keys as ids means no two are the same. */
  ghost predicate Assigned(ids: map<nat, nat>, shortIds: seq<nat>, free: seq<nat>, i: nat)
    requires i <= |shortIds| && i <= |free|
  {
    && |ids| <= i && (|ids| == i <==> Distinct(shortIds[..i]))
    && (Distinct(shortIds[..i]) ==> Pairs(ids, shortIds, free, i))
    && (forall x :: x in ids <==> x in shortIds[..i])
  }

  lemma AssignedMore(ids: map<nat, nat>, shortIds: seq<nat>, free: seq<nat>, i: nat)
    requires i < |shortIds| && i < |free| && Assigned(ids, shortIds, free, i)
    ensures Assigned(ids[shortIds[i] := free[i]], shortIds, free, i + 1)
  {
    hide Distinct, Pairs;
    var x, next := shortIds[i], ids[shortIds[i] := free[i]];
    assert shortIds[..i + 1] == shortIds[..i] + [x];
    if x in ids {
      assert next.Keys == ids.Keys;
      NotDistinct(shortIds, i);
    } else {
      assert next.Keys == ids.Keys + {x};
      DistinctMore(shortIds, i);
      if Distinct(shortIds[..i]) { PairsMore(ids, shortIds, free, i); }
    }
  }

  lemma NotDistinct(s: seq<nat>, i: nat)
    requires i < |s| && s[i] in s[..i]
    ensures !Distinct(s[..i + 1])
  {
    var j :| 0 <= j < i && s[..i][j] == s[i];
    assert s[..i + 1][j] == s[..i + 1][i];
  }

  lemma PairsMore(ids: map<nat, nat>, shortIds: seq<nat>, free: seq<nat>, i: nat)
    requires i < |shortIds| && i < |free| && Pairs(ids, shortIds, free, i) && shortIds[i] !in ids
    ensures Pairs(ids[shortIds[i] := free[i]], shortIds, free, i + 1)
  {
    var next := ids[shortIds[i] := free[i]];
    forall x | x in next ensures exists j :: 0 <= j < i + 1 && shortIds[j] == x {
      if x != shortIds[i] {
        var j :| 0 <= j < i && shortIds[j] == x;
      }
    }
  }

  lemma DistinctMore(s: seq<nat>, i: nat)
    requires i < |s| && s[i] !in s[..i]
    ensures Distinct(s[..i + 1]) <==> Distinct(s[..i])
  {
    var t, u := s[..i], s[..i + 1];
    assert u == t + [s[i]];
    if Distinct(t) {
      forall a, b | 0 <= a < b < |u| ensures u[a] != u[b] {
        assert u[a] == t[a];
        assert b < i ==> u[b] == t[b];
      }
    }
    if Distinct(u) {
      forall a, b | 0 <= a < b < |t| ensures t[a] != t[b] { assert u[a] == t[a] && u[b] == t[b]; }
    }
  }

  /** Gives each short id the next slot that is not taken; the search for it stays within the slots. */
  method AssignSlots(m: Message, slots: seq<Slot>, crowded: nat -> bool) returns (ok: bool, ids: map<nat, nat>)
    requires |Free(slots, 0)| == |m.shortIds|
    ensures ok <==> Distinct(m.shortIds) && forall i :: 0 <= i < |m.shortIds| ==> !crowded(i)
    ensures ok ==> Pairs(ids, m.shortIds, Free(slots, 0), |m.shortIds|)
  {
    hide Free, Assigned, Pairs;
    ghost var free := Free(slots, 0);
    ids := map[];
    var offset := 0;
    AssignedNone(m.shortIds, free);
    for i := 0 to |m.shortIds|
      invariant Free(slots, i + offset) == free[i..] && Assigned(ids, m.shortIds, free, i)
      invariant forall j :: 0 <= j < i ==> !crowded(j)
    {
      FreeStep(slots, i + offset);
      while slots[i + offset].Have?
        invariant Free(slots, i + offset) == free[i..] && i + offset < |slots|
        decreases |slots| - offset
      {
        FreeStep(slots, i + offset);
        offset := offset + 1;
        FreeStep(slots, i + offset);
      }
      FreeStep(slots, i + offset);
      assert free[i..][0] == free[i] && free[i..][1..] == free[i + 1..];
      AssignedMore(ids, m.shortIds, free, i);
      ids := ids[m.shortIds[i] := i + offset];
      if crowded(i) { return false, ids; }
    }
    AssignedAll(ids, m.shortIds, free);
    ok := |ids| == |m.shortIds|;
  }

  lemma AssignedNone(shortIds: seq<nat>, free: seq<nat>)
    ensures Assigned(map[], shortIds, free, 0)
  {
  }

  lemma AssignedAll(ids: map<nat, nat>, shortIds: seq<nat>, free: seq<nat>)
    requires |shortIds| == |free| && Assigned(ids, shortIds, free, |shortIds|)
    ensures |ids| == |shortIds| <==> Distinct(shortIds)
    ensures |ids| == |shortIds| ==> Pairs(ids, shortIds, free, |shortIds|)
  {
    assert shortIds[..|shortIds|] == shortIds;
  }

  // ----- filling slots from what is at hand

  /** Slots found for short ids hold a transaction with that id, out of the sources;
      a slot that was filled once is remembered; given transactions stay. */
  ghost predicate Filled(base: seq<Slot>, slots: seq<Slot>, have: seq<bool>, ids: map<nat, nat>, shortId: Tx -> nat,
                         sources: set<Tx>) {
    && |slots| == |base| == |have|
    && (forall k :: 0 <= k < |base| && base[k].Have? ==> slots[k] == base[k])
    && (forall k :: 0 <= k < |base| && base[k].Missing? && slots[k].Have? ==>
          have[k] && slots[k].tx in sources && shortId(slots[k].tx) in ids && ids[shortId(slots[k].tx)] == k)
  }

  ghost predicate InFree(base: seq<Slot>, ids: map<nat, nat>) {
    forall x :: x in ids ==> ids[x] < |base| && base[ids[x]].Missing?
  }

  lemma FilledMore(base: seq<Slot>, slots: seq<Slot>, have: seq<bool>, ids: map<nat, nat>, shortId: Tx -> nat,
                   sources: set<Tx>, tx: Tx)
    requires Filled(base, slots, have, ids, shortId, sources) && InFree(base, ids) && shortId(tx) in ids
    requires !have[ids[shortId(tx)]]
    ensures var k := ids[shortId(tx)];
      && slots[k].Missing? && Held(slots[k := Have(tx)]) == Held(slots) + 1
      && Filled(base, slots[k := Have(tx)], have[k := true], ids, shortId, sources + {tx})
  {
    HeldUpdate(slots, ids[shortId(tx)], Have(tx));
  }

  lemma FilledLess(base: seq<Slot>, slots: seq<Slot>, have: seq<bool>, ids: map<nat, nat>, shortId: Tx -> nat,
                   sources: set<Tx>, k: nat)
    requires Filled(base, slots, have, ids, shortId, sources) && k < |base| && base[k].Missing? && slots[k].Have?
    ensures Held(slots[k := Missing]) == Held(slots) - 1
    ensures Filled(base, slots[k := Missing], have, ids, shortId, sources)
  {
    HeldUpdate(slots, k, Missing);
  }

  lemma FilledWider(base: seq<Slot>, slots: seq<Slot>, have: seq<bool>, ids: map<nat, nat>, shortId: Tx -> nat,
                    sources: set<Tx>, more: set<Tx>)
    requires Filled(base, slots, have, ids, shortId, sources) && sources <= more
    ensures Filled(base, slots, have, ids, shortId, more)
  {
  }

  ghost function Members(list: seq<Tx>): set<Tx> { set tx | tx in list }

  ghost predicate OneToOne(ids: map<nat, nat>) { forall x, y :: x in ids && y in ids && ids[x] == ids[y] ==> x == y }

  /** In the list, only `tx` has short id x; and only once, unless repetitions are tolerated. */
  ghost predicate Sole(shortId: Tx -> nat, list: seq<Tx>, tolerant: bool, x: nat, tx: Tx) {
    && (forall j :: 0 <= j < |list| && shortId(list[j]) == x ==> list[j] == tx)
    && (tolerant || forall i, j :: 0 <= i < j < |list| && shortId(list[i]) == x ==> shortId(list[j]) != x)
  }

  ghost predicate Met(shortId: Tx -> nat, list: seq<Tx>, n: nat, x: nat)
    requires n <= |list|
  {
    exists j :: 0 <= j < n && shortId(list[j]) == x
  }

  /** What the slot k of short id x is after n transactions were looked at, when only `tx` has that id. */
  ghost predicate FoundAt(shortId: Tx -> nat, list: seq<Tx>, n: nat, tolerant: bool, before: Slot, flag: bool,
                          after: Slot, have: bool, x: nat, tx: Tx)
    requires n <= |list|
  {
    if Met(shortId, list, n, x)
    then !flag || (tolerant && flag && before == Have(tx)) ==> after == Have(tx) && have
    else after == before && have == flag
  }

  /** A transaction that alone has its short id is found, or stays where it was found before. */
  ghost predicate Found(ids: map<nat, nat>, shortId: Tx -> nat, list: seq<Tx>, n: nat, tolerant: bool,
                        before: seq<Slot>, flags: seq<bool>, slots: seq<Slot>, have: seq<bool>)
    requires n <= |list|
  {
    && |before| == |flags| == |slots| == |have|
    && (forall x :: x in ids ==> ids[x] < |slots|)
    && (forall x, tx :: x in ids && Sole(shortId, list, tolerant, x, tx) ==>
          FoundAt(shortId, list, n, tolerant, before[ids[x]], flags[ids[x]], slots[ids[x]], have[ids[x]], x, tx))
  }

  /** What looking at one transaction does to the slots. */
  ghost function Looked(ids: map<nat, nat>, shortId: Tx -> nat, tx: Tx, tolerant: bool, slots: seq<Slot>,
                        have: seq<bool>):
    (seq<Slot>, seq<bool>)
    requires |slots| == |have| && forall x :: x in ids ==> ids[x] < |slots|
  {
    if shortId(tx) !in ids then (slots, have) else
    var k := ids[shortId(tx)];
    if !have[k] then (slots[k := Have(tx)], have[k := true])
    else if slots[k].Have? && !(tolerant && slots[k].tx == tx) then (slots[k := Missing], have)
    else (slots, have)
  }

  lemma FoundNext(ids: map<nat, nat>, shortId: Tx -> nat, list: seq<Tx>, n: nat, tolerant: bool,
                  before: seq<Slot>, flags: seq<bool>, slots: seq<Slot>, have: seq<bool>)
    requires n < |list| && Found(ids, shortId, list, n, tolerant, before, flags, slots, have) && OneToOne(ids)
    ensures var (next, flagged) := Looked(ids, shortId, list[n], tolerant, slots, have);
            Found(ids, shortId, list, n + 1, tolerant, before, flags, next, flagged)
  {
    var (next, flagged) := Looked(ids, shortId, list[n], tolerant, slots, have);
    forall x, tx | x in ids && Sole(shortId, list, tolerant, x, tx)
      ensures FoundAt(shortId, list, n + 1, tolerant, before[ids[x]], flags[ids[x]],
                      next[ids[x]], flagged[ids[x]], x, tx)
    {
      assert FoundAt(shortId, list, n, tolerant, before[ids[x]], flags[ids[x]], slots[ids[x]], have[ids[x]], x, tx);
      assert Met(shortId, list, n + 1, x) <==> Met(shortId, list, n, x) || shortId(list[n]) == x;
    }
  }

  lemma FoundNone(ids: map<nat, nat>, shortId: Tx -> nat, list: seq<Tx>, tolerant: bool, slots: seq<Slot>,
                  have: seq<bool>)
    requires |slots| == |have| && forall x :: x in ids ==> ids[x] < |slots|
    ensures Found(ids, shortId, list, 0, tolerant, slots, have, slots, have)
  {
  }

  /** Once every slot with a short id is held, there is nothing left to find. */
  lemma FoundEarly(ids: map<nat, nat>, shortId: Tx -> nat, list: seq<Tx>, n: nat, tolerant: bool,
                   before: seq<Slot>, flags: seq<bool>, slots: seq<Slot>, have: seq<bool>)
    requires n <= |list| && Found(ids, shortId, list, n, tolerant, before, flags, slots, have)
    requires forall x :: x in ids ==> slots[ids[x]].Have? && (before[ids[x]].Have? ==> flags[ids[x]])
    ensures Found(ids, shortId, list, |list|, tolerant, before, flags, slots, have)
  {
    forall x, tx | x in ids && Sole(shortId, list, tolerant, x, tx)
      ensures FoundAt(shortId, list, |list|, tolerant, before[ids[x]], flags[ids[x]],
                      slots[ids[x]], have[ids[x]], x, tx)
    {
      assert FoundAt(shortId, list, n, tolerant, before[ids[x]], flags[ids[x]], slots[ids[x]], have[ids[x]], x, tx);
      assert Met(shortId, list, n, x) ==> Met(shortId, list, |list|, x);
    }
  }

  ghost function NewlyHeld(base: seq<Slot>, slots: seq<Slot>, n: nat): set<nat>
    requires n <= |base| == |slots|
  {
    set k: nat | k < n && base[k].Missing? && slots[k].Have?
  }

  lemma {:induction false} HeldMore(base: seq<Slot>, slots: seq<Slot>, n: nat)
    requires n <= |base| == |slots| && forall k :: 0 <= k < |base| && base[k].Have? ==> slots[k].Have?
    ensures Held(slots[..n]) - Held(base[..n]) == |NewlyHeld(base, slots, n)|
  {
    hide Held, NewlyHeld;
    if n > 0 {
      HeldMore(base, slots, n - 1);
      HeldPrefix(slots, n);
      HeldPrefix(base, n);
      NewlyHeldNext(base, slots, n - 1);
    } else {
      HeldNowhere(base, slots);
    }
  }

  lemma HeldNowhere(base: seq<Slot>, slots: seq<Slot>)
    requires |base| == |slots|
    ensures Held(slots[..0]) == Held(base[..0]) == |NewlyHeld(base, slots, 0)| == 0
  {
    assert NewlyHeld(base, slots, 0) == {};
  }

  lemma HeldPrefix(slots: seq<Slot>, n: nat)
    requires 0 < n <= |slots|
    ensures Held(slots[..n]) == Held(slots[..n - 1]) + if slots[n - 1].Have? then 1 else 0
  {
    assert slots[..n][..n - 1] == slots[..n - 1];
  }

  lemma NewlyHeldNext(base: seq<Slot>, slots: seq<Slot>, n: nat)
    requires n < |base| == |slots|
    ensures |NewlyHeld(base, slots, n + 1)| ==
      |NewlyHeld(base, slots, n)| + if base[n].Missing? && slots[n].Have? then 1 else 0
  {
    var a, b := NewlyHeld(base, slots, n + 1), NewlyHeld(base, slots, n);
    assert a == if base[n].Missing? && slots[n].Have? then b + {n} else b;
  }

  lemma {:induction false} ValuesSize(m: map<nat, nat>)
    ensures |m.Values| <= |m|
    decreases |m|
  {
    if m != map[] {
      var x :| x in m;
      ValuesSize(m - {x});
      forall v | v in m.Values ensures v in (m - {x}).Values + {m[x]} {
        var y :| y in m && m[y] == v;
        assert y != x ==> y in m - {x} && (m - {x})[y] == v;
      }
      SubsetSize(m.Values, (m - {x}).Values + {m[x]});
    } else {
      assert m.Values == {};
    }
  }

  /** As many slots found as there are short ids: all of them. */
  lemma AllHeld(base: seq<Slot>, slots: seq<Slot>, have: seq<bool>, ids: map<nat, nat>, shortId: Tx -> nat,
                sources: set<Tx>, x: nat)
    requires Filled(base, slots, have, ids, shortId, sources) && InFree(base, ids) && x in ids
    requires Held(slots) - Held(base) == |ids|
    ensures ids[x] < |slots| && slots[ids[x]].Have?
  {
    var n := |base|;
    assert slots[..n] == slots && base[..n] == base;
    HeldMore(base, slots, n);
    ValuesSize(ids);
    var held := NewlyHeld(base, slots, n);
    forall k | k in held ensures k in ids.Values { assert ids[shortId(slots[k].tx)] == k; }
    if slots[ids[x]].Missing? { SubsetSize(held, ids.Values - {ids[x]}); }
  }

  lemma FlaggedBefore(base: seq<Slot>, slots: seq<Slot>, have: seq<bool>, ids: map<nat, nat>, shortId: Tx -> nat,
                      sources: set<Tx>)
    requires Filled(base, slots, have, ids, shortId, sources) && InFree(base, ids)
    ensures |slots| == |have|
    ensures forall x :: x in ids ==> ids[x] < |slots| && (slots[ids[x]].Have? ==> have[ids[x]])
  {
  }

  /** Looks at one list of transactions.  A second match empties the slot again, unless, for the
      extra list, it is the same transaction. */
  method Search(base: seq<Slot>, before: seq<Slot>, flags: seq<bool>, ids: map<nat, nat>, shortId: Tx -> nat,
                list: seq<Tx>,
                tolerant: bool, counted: int, ghost sources: set<Tx>)
    returns (slots: seq<Slot>, have: seq<bool>, count: int, extra: int)
    requires Filled(base, before, flags, ids, shortId, sources) && InFree(base, ids) && OneToOne(ids)
    requires counted == Held(before) - Held(base)
    ensures Filled(base, slots, have, ids, shortId, sources + Members(list)) && count == Held(slots) - Held(base)
    ensures extra == count - counted
    ensures Found(ids, shortId, list, |list|, tolerant, before, flags, slots, have)
  {
    hide Filled, InFree, Held, Found, OneToOne;
    slots, have, count, extra := before, flags, counted, 0;
    ghost var all := sources + Members(list);
    FilledWider(base, slots, have, ids, shortId, sources, all);
    FlaggedBefore(base, before, flags, ids, shortId, sources);
    FoundNone(ids, shortId, list, tolerant, slots, have);
    var i := 0;
    while i < |list|
      invariant 0 <= i <= |list| && Filled(base, slots, have, ids, shortId, all) && count == Held(slots) - Held(base)
      invariant extra == count - counted && Found(ids, shortId, list, i, tolerant, before, flags, slots, have)
    {
      var tx := list[i];
      FlaggedBefore(base, slots, have, ids, shortId, all);
      FoundNext(ids, shortId, list, i, tolerant, before, flags, slots, have);
      if shortId(tx) in ids {
        var k := ids[shortId(tx)];
        FreeSlot(base, slots, have, ids, shortId, all, shortId(tx));
        if !have[k] {
          FilledMore(base, slots, have, ids, shortId, all, tx);
          assert all + {tx} == all;
          slots, have := slots[k := Have(tx)], have[k := true];
          count, extra := count + 1, extra + 1;
        } else if slots[k].Have? && !(tolerant && slots[k].tx == tx) {
          FilledLess(base, slots, have, ids, shortId, all, k);
          slots := slots[k := Missing];
          count, extra := count - 1, extra - 1;
        }
      }
      i := i + 1;
      if count == |ids| {
        forall x | x in ids ensures ids[x] < |slots| && slots[ids[x]].Have? {
          AllHeld(base, slots, have, ids, shortId, all, x);
        }
        FoundEarly(ids, shortId, list, i, tolerant, before, flags, slots, have);
        break;
      }
    }
  }

  lemma FreeSlot(base: seq<Slot>, slots: seq<Slot>, have: seq<bool>, ids: map<nat, nat>, shortId: Tx -> nat,
                 sources: set<Tx>, x: nat)
    requires Filled(base, slots, have, ids, shortId, sources) && InFree(base, ids) && x in ids
    ensures ids[x] < |base| == |slots| == |have| && base[ids[x]].Missing?
  {
  }

  lemma PlacedFree(m: Message, slots: seq<Slot>)
    requires Placed(m, slots, |m.prefilled|)
    ensures |Free(slots, 0)| == |m.shortIds|
  {
    FreeCount(slots, 0);
    assert slots[..0] == [];
  }

  lemma PairsFree(base: seq<Slot>, ids: map<nat, nat>, shortIds: seq<nat>)
    requires |Free(base, 0)| == |shortIds| && Pairs(ids, shortIds, Free(base, 0), |shortIds|)
    ensures InFree(base, ids)
  {
    FreeAre(base, 0);
  }

  lemma PairsOneToOne(base: seq<Slot>, ids: map<nat, nat>, shortIds: seq<nat>)
    requires |Free(base, 0)| == |shortIds| && Pairs(ids, shortIds, Free(base, 0), |shortIds|)
    ensures OneToOne(ids)
  {
    FreeAre(base, 0);
    forall x, y | x in ids && y in ids && ids[x] == ids[y] ensures x == y {
      var i :| 0 <= i < |shortIds| && shortIds[i] == x;
      var j :| 0 <= j < |shortIds| && shortIds[j] == y;
    }
  }

  /** Every transaction at hand that alone has a short id of the message is in its slot. */
  ghost predicate FindsAll(ids: map<nat, nat>, shortId: Tx -> nat, pool: seq<Tx>, extra: seq<Tx>, slots: seq<Slot>) {
    forall x, tx :: x in ids && Sole(shortId, pool, false, x, tx) && Sole(shortId, extra, true, x, tx)
                    && shortId(tx) == x && (tx in pool || tx in extra) ==>
      ids[x] < |slots| && slots[ids[x]] == Have(tx)
  }

  lemma FoundBoth(base: seq<Slot>, none: seq<bool>, ids: map<nat, nat>, shortId: Tx -> nat, pool: seq<Tx>,
                  extra: seq<Tx>,
                  slots: seq<Slot>, have: seq<bool>, last: seq<Slot>, flags: seq<bool>)
    requires InFree(base, ids) && forall k :: 0 <= k < |none| ==> !none[k]
    requires Found(ids, shortId, pool, |pool|, false, base, none, slots, have)
    requires Found(ids, shortId, extra, |extra|, true, slots, have, last, flags)
    ensures FindsAll(ids, shortId, pool, extra, last)
  {
    forall x, tx | x in ids && Sole(shortId, pool, false, x, tx) && Sole(shortId, extra, true, x, tx)
                   && shortId(tx) == x && (tx in pool || tx in extra)
      ensures last[ids[x]] == Have(tx)
    {
      var k := ids[x];
      assert FoundAt(shortId, pool, |pool|, false, base[k], none[k], slots[k], have[k], x, tx);
      assert FoundAt(shortId, extra, |extra|, true, slots[k], have[k], last[k], flags[k], x, tx);
      assert tx in pool ==> Met(shortId, pool, |pool|, x);
      assert tx in extra ==> Met(shortId, extra, |extra|, x);
    }
  }

  // ----- the block in progress

  class PartiallyDownloadedBlock {
    var hasHeader: bool
    var txnAvailable: seq<Slot>
    var prefilledCount: nat
    var mempoolCount: int
    var extraCount: int
    ghost var base: seq<Slot>
    ghost var ids: map<nat, nat>

    constructor ()
      ensures !hasHeader && txnAvailable == []
    {
      hasHeader, txnAvailable := false, [];
      prefilledCount, mempoolCount, extraCount := 0, 0, 0;
    }

    /** What is known once a message was taken in: given transactions are in place, each short id
        belongs to one slot that is not given, and what was found has the id of its slot. */
    ghost predicate Started(m: Message, shortId: Tx -> nat, sources: set<Tx>)
      reads this
    {
      && hasHeader && Placed(m, base, |m.prefilled|) && |Free(base, 0)| == |m.shortIds|
      && Pairs(ids, m.shortIds, Free(base, 0), |m.shortIds|)
      && (exists have :: Filled(base, txnAvailable, have, ids, shortId, sources))
      && prefilledCount == |m.prefilled| && mempoolCount == Held(txnAvailable) - prefilledCount
    }

    method InitData(m: Message, headerIsNull: bool, shortId: Tx -> nat, crowded: nat -> bool, pool: seq<Tx>,
                    extra: seq<Tx>)
      returns (status: Status)
      requires !hasHeader && txnAvailable == []
      requires |m.shortIds| + |m.prefilled| <= MAX16 || |m.shortIds| + |m.prefilled| > MAX_TRANSACTIONS
      modifies this
      ensures status.Ok? || status.Invalid? || status.Failed?
      ensures status.Invalid? <==> headerIsNull || |m.shortIds| + |m.prefilled| == 0
                                   || |m.shortIds| + |m.prefilled| > MAX_TRANSACTIONS || !Good(m)
      ensures status.Ok? <==> !status.Invalid? && Distinct(m.shortIds)
                              && forall i :: 0 <= i < |m.shortIds| ==> !crowded(i)
      ensures status.Ok? ==> Started(m, shortId, Members(pool) + Members(extra))
      ensures status.Ok? ==> FindsAll(ids, shortId, pool, extra, txnAvailable)
    {
      hide Placed, Pairs, Filled, InFree, Held, Free, Good, Found, FindsAll, OneToOne;
      if headerIsNull || (|m.shortIds| == 0 && |m.prefilled| == 0) { return Invalid; }
      if |m.shortIds| + |m.prefilled| > MAX_TRANSACTIONS { return Invalid; }
      hasHeader := true;
      var ok, slots := PlacePrefilled(m);
      txnAvailable := slots;
      if !ok { return Invalid; }
      prefilledCount := |m.prefilled|;
      base := slots;
      PlacedFree(m, slots);
      var map_;
      ok, map_ := AssignSlots(m, slots, crowded);
      ids := map_;
      if !ok { return Failed; }
      PairsFree(base, ids, m.shortIds);
      PairsOneToOne(base, ids, m.shortIds);
      var have := seq(|slots|, i => false);
      FilledNone(slots, have, ids, shortId);
      PlacedHeld(m, slots);
      mempoolCount := 0;
      var found;
      ghost var unflagged := have;
      txnAvailable, have, mempoolCount, found := Search(slots, txnAvailable, have, map_, shortId, pool, false, 0, {});
      ghost var none: set<Tx> := {};
      assert none + Members(pool) == Members(pool);
      ghost var fromPool, flagged := txnAvailable, have;
      txnAvailable, have, mempoolCount, extraCount :=
        Search(slots, txnAvailable, have, map_, shortId, extra, true, mempoolCount, Members(pool));
      FoundBoth(slots, unflagged, map_, shortId, pool, extra, fromPool, flagged, txnAvailable, have);
      return Status.Ok;
    }

    /** Puts the missing transactions in the empty slots, in order; then the block is checked. */
    method FillBlock(missing: seq<Tx>, check: Status) returns (status: Status, block: seq<Tx>)
      requires hasHeader && !check.Invalid?
      modifies this
      ensures status == if |missing| == |Free(old(txnAvailable), 0)| then check else Invalid
      ensures |missing| == |Free(old(txnAvailable), 0)| ==> IsMerge(old(txnAvailable), missing, block)
      ensures |missing| >= |Free(old(txnAvailable), 0)| ==> !hasHeader && txnAvailable == []
    {
      hide Free;
      ghost var slots := txnAvailable;
      ghost var free := Free(slots, 0);
      block := [];
      var offset := 0;
      var i := 0;
      while i < |txnAvailable|
        invariant 0 <= i == |block| <= |txnAvailable| == |slots| && hasHeader && txnAvailable[i..] == slots[i..]
        invariant 0 <= offset <= |free| && offset <= |missing| && Free(slots, i) == free[offset..]
        invariant forall k :: 0 <= k < i && slots[k].Have? ==> block[k] == slots[k].tx
        invariant forall j :: 0 <= j < offset ==> free[j] < i && block[free[j]] == missing[j]
      {
        assert txnAvailable[i] == slots[i];
        FreeAt(slots, i);
        if txnAvailable[i].Missing? {
          assert free[offset..][0] == free[offset] && free[offset..][1..] == free[offset + 1..];
          if |missing| <= offset { return Invalid, block; }
          block := block + [missing[offset]];
          offset := offset + 1;
        } else {
          block := block + [txnAvailable[i].tx];
          txnAvailable := txnAvailable[i := Missing];
        }
        i := i + 1;
      }
      FreeEnd(slots);
      hasHeader, txnAvailable := false, [];
      if |missing| != offset { return Invalid, block; }
      return check, block;
    }
  }

  /** The held transactions where they are, and the others in the empty slots in order. */
  ghost predicate IsMerge(slots: seq<Slot>, missing: seq<Tx>, block: seq<Tx>) {
    var free := Free(slots, 0);
    && |block| == |slots| && |missing| == |free|
    && (forall k :: 0 <= k < |slots| && slots[k].Have? ==> block[k] == slots[k].tx)
    && (forall j :: 0 <= j < |free| ==> free[j] < |block| && block[free[j]] == missing[j])
  }

  lemma FreeAt(slots: seq<Slot>, k: nat)
    requires k < |slots|
    ensures Free(slots, k) == if slots[k].Missing? then [k] + Free(slots, k + 1) else Free(slots, k + 1)
  {
  }

  lemma FreeEnd(slots: seq<Slot>)
    ensures Free(slots, |slots|) == []
  {
  }

  lemma FilledNone(slots: seq<Slot>, have: seq<bool>, ids: map<nat, nat>, shortId: Tx -> nat)
    requires |slots| == |have|
    ensures Filled(slots, slots, have, ids, shortId, {})
  {
  }

  lemma PlacedHeld(m: Message, slots: seq<Slot>)
    requires Placed(m, slots, |m.prefilled|)
    ensures Held(slots) == |m.prefilled|
  {
  }

  // ----- a block sent and received

  /** The message stands for the block: given transactions are the block's, and the short ids
      are those of the others, in order. */
  ghost predicate Describes(m: Message, base: seq<Slot>, block: seq<Tx>, shortId: Tx -> nat) {
    && |block| == |base| && Placed(m, base, |m.prefilled|) && |Free(base, 0)| == |m.shortIds|
    && (forall k :: 0 <= k < |base| && base[k].Have? ==> base[k].tx == block[k])
    && (forall j :: 0 <= j < |m.shortIds| ==>
          Free(base, 0)[j] < |block| && m.shortIds[j] == shortId(block[Free(base, 0)[j]]))
  }

  /** No other transaction at hand has the short id of one of the block. */
  ghost predicate NoImpostor(block: seq<Tx>, shortId: Tx -> nat, sources: set<Tx>) {
    forall tx, k :: tx in sources && 0 <= k < |block| && shortId(tx) == shortId(block[k]) ==> tx == block[k]
  }

  /** Then every slot that is filled holds the block's own transaction. */
  lemma FoundIsReal(m: Message, base: seq<Slot>, slots: seq<Slot>, have: seq<bool>, ids: map<nat, nat>,
                    shortId: Tx -> nat,
                    sources: set<Tx>, block: seq<Tx>)
    requires Describes(m, base, block, shortId) && NoImpostor(block, shortId, sources)
    requires Pairs(ids, m.shortIds, Free(base, 0), |m.shortIds|) && Filled(base, slots, have, ids, shortId, sources)
    ensures forall k :: 0 <= k < |slots| && slots[k].Have? ==> slots[k].tx == block[k]
  {
    hide Free, Placed;
    forall k | 0 <= k < |slots| && slots[k].Have? ensures slots[k].tx == block[k] {
      if base[k].Missing? {
        var x := shortId(slots[k].tx);
        assert x in ids;
        var j :| 0 <= j < |m.shortIds| && m.shortIds[j] == x;
        assert Free(base, 0)[j] == k;
      }
    }
  }

  /** With the block's transactions in the empty slots, the block comes out. */
  lemma MergeIsBlock(slots: seq<Slot>, missing: seq<Tx>, merged: seq<Tx>, block: seq<Tx>)
    requires |slots| == |block| && IsMerge(slots, missing, merged)
    requires forall k :: 0 <= k < |slots| && slots[k].Have? ==> slots[k].tx == block[k]
    requires forall j :: 0 <= j < |missing| ==> Free(slots, 0)[j] < |block| && missing[j] == block[Free(slots, 0)[j]]
    ensures merged == block
  {
    FreeAre(slots, 0);
    forall k | 0 <= k < |slots| ensures merged[k] == block[k] {
      if slots[k].Missing? {
        var j :| 0 <= j < |Free(slots, 0)| && Free(slots, 0)[j] == k;
      }
    }
  }

  /** The sender gives the first transaction in full and short ids for the rest. */
  method Announce(block: seq<Tx>, shortId: Tx -> nat) returns (m: Message, ghost base: seq<Slot>)
    requires block != []
    ensures Good(m) && Describes(m, base, block, shortId)
    ensures |m.prefilled| == 1 && |m.shortIds| == |block| - 1
  {
    hide Free, Held, Placed, Good;
    var shortIds: seq<nat> := [];
    for i := 1 to |block|
      invariant |shortIds| == i - 1 && forall j :: 0 <= j < i - 1 ==> shortIds[j] == shortId(block[j + 1])
    {
      shortIds := shortIds + [shortId(block[i])];
    }
    m := Message(shortIds, [Prefilled(0, Have(block[0]))]);
    base := [Have(block[0])] + seq(|block| - 1, i => Missing);
    FirstPlaced(m, base, block);
    FirstFree(base);
  }

  lemma FirstFree(base: seq<Slot>)
    requires base != [] && base[0].Have? && forall k :: 1 <= k < |base| ==> base[k].Missing?
    ensures |Free(base, 0)| == |base| - 1 && forall j :: 0 <= j < |base| - 1 ==> Free(base, 0)[j] == j + 1
  {
    hide Free;
    TailFree(base, 1);
    FreeAt(base, 0);
  }

  lemma FirstPlaced(m: Message, base: seq<Slot>, block: seq<Tx>)
    requires block != [] && |base| == |block| == |m.shortIds| + 1 && m.prefilled == [Prefilled(0, Have(block[0]))]
    requires base[0] == Have(block[0]) && forall k :: 1 <= k < |base| ==> base[k].Missing?
    ensures Good(m) && Placed(m, base, 1)
  {
    hide Held;
    assert Place(m.prefilled, 0) == 0;
    var none := base[0 := Missing];
    HeldNone(none);
    HeldUpdate(none, 0, base[0]);
    assert none[0 := base[0]] == base;
  }

  lemma {:induction false} TailFree(slots: seq<Slot>, from: nat)
    requires from <= |slots| && forall k :: from <= k < |slots| ==> slots[k].Missing?
    ensures |Free(slots, from)| == |slots| - from
    ensures forall j :: 0 <= j < |slots| - from ==> Free(slots, from)[j] == from + j
    decreases |slots| - from
  {
    if from < |slots| { TailFree(slots, from + 1); }
  }

  /** A transaction of the block that is at hand and was not given is found. */
  lemma FoundAtHand(m: Message, base: seq<Slot>, slots: seq<Slot>, ids: map<nat, nat>, shortId: Tx -> nat,
                    pool: seq<Tx>, extra: seq<Tx>, block: seq<Tx>, k: nat)
    requires Describes(m, base, block, shortId) && NoImpostor(block, shortId, Members(pool) + Members(extra))
    requires Distinct(pool)
    requires Pairs(ids, m.shortIds, Free(base, 0), |m.shortIds|) && FindsAll(ids, shortId, pool, extra, slots)
    requires k < |block| && base[k].Missing? && block[k] in Members(pool) + Members(extra)
    ensures k < |slots| && slots[k] == Have(block[k])
  {
    hide Free, Placed;
    FreeAre(base, 0);
    var j :| 0 <= j < |Free(base, 0)| && Free(base, 0)[j] == k;
    var x := shortId(block[k]);
    assert m.shortIds[j] == x && x in ids && ids[x] == k;
    SoleInBlock(shortId, pool, false, block, k);
    SoleInBlock(shortId, extra, true, block, k);
  }

  lemma SoleInBlock(shortId: Tx -> nat, list: seq<Tx>, tolerant: bool, block: seq<Tx>, k: nat)
    requires NoImpostor(block, shortId, Members(list)) && k < |block| && (tolerant || Distinct(list))
    ensures Sole(shortId, list, tolerant, shortId(block[k]), block[k])
  {
    forall j | 0 <= j < |list| && shortId(list[j]) == shortId(block[k]) ensures list[j] == block[k] {
      assert list[j] in Members(list);
    }
  }

  /** The receiver takes in a message that stands for the block, asks for what it lacks and gets the block,
      unless ids collide or the table of ids is crowded.  It asks for nothing that is at hand. */
  method Receive(m: Message, shortId: Tx -> nat, crowded: nat -> bool, pool: seq<Tx>, extra: seq<Tx>, block: seq<Tx>,
                 ghost base: seq<Slot>)
    returns (status: Status, received: seq<Tx>, wanted: seq<nat>)
    requires |m.shortIds| + |m.prefilled| <= MAX16 && block != [] && Good(m) && Describes(m, base, block, shortId)
    requires NoImpostor(block, shortId, Members(pool) + Members(extra))
    ensures status.Ok? <==> Distinct(m.shortIds) && forall i :: 0 <= i < |m.shortIds| ==> !crowded(i)
    ensures status.Ok? ==> received == block
    ensures status.Ok? && Distinct(pool) ==>
      forall k :: k in wanted <==> 0 <= k < |block| && base[k].Missing? && block[k] !in Members(pool) + Members(extra)
  {
    hide Placed, Pairs, Filled, Free, Held, Good, IsMerge, NoImpostor, FindsAll, Describes;
    var partial := new PartiallyDownloadedBlock();
    TotalIs(m, base, block, shortId);
    status := partial.InitData(m, false, shortId, crowded, pool, extra);
    received, wanted := [], [];
    if !status.Ok? { return; }
    SameBase(m, base, partial.base);
    ghost var sources := Members(pool) + Members(extra);
    ghost var have :| Filled(partial.base, partial.txnAvailable, have, partial.ids, shortId, sources);
    FoundIsReal(m, base, partial.txnAvailable, have, partial.ids, shortId, sources, block);
    FilledLength(partial.base, partial.txnAvailable, have, partial.ids, shortId, sources);
    FreeAre(partial.txnAvailable, 0);
    ghost var slots := partial.txnAvailable;
    wanted := Free(partial.txnAvailable, 0);
    if Distinct(pool) {
      forall k ensures k in wanted <==> 0 <= k < |block| && base[k].Missing? && block[k] !in sources {
        WantedAt(m, base, slots, have, partial.ids, shortId, pool, extra, block, k);
      }
    }
    var missing := seq(|wanted|, j requires 0 <= j < |wanted| => if wanted[j] < |block| then block[wanted[j]] else 0);
    status, received := partial.FillBlock(missing, Status.Ok);
    MergeIsBlock(slots, missing, received, block);
  }

  lemma WantedAt(m: Message, base: seq<Slot>, slots: seq<Slot>, have: seq<bool>, ids: map<nat, nat>, shortId: Tx -> nat,
                 pool: seq<Tx>, extra: seq<Tx>, block: seq<Tx>, k: int)
    requires Describes(m, base, block, shortId) && NoImpostor(block, shortId, Members(pool) + Members(extra))
    requires Distinct(pool)
    requires Pairs(ids, m.shortIds, Free(base, 0), |m.shortIds|) && FindsAll(ids, shortId, pool, extra, slots)
    requires Filled(base, slots, have, ids, shortId, Members(pool) + Members(extra))
    ensures |base| == |block|
    ensures k in Free(slots, 0) <==> 0 <= k < |block| && base[k].Missing? && block[k] !in Members(pool) + Members(extra)
  {
    hide Pairs, FindsAll, NoImpostor, Placed, Free;
    FreeAre(slots, 0);
    if 0 <= k < |block| && base[k].Missing? {
      if block[k] in Members(pool) + Members(extra) {
        FoundAtHand(m, base, slots, ids, shortId, pool, extra, block, k);
      } else if slots[k].Have? {
        FoundIsReal(m, base, slots, have, ids, shortId, Members(pool) + Members(extra), block);
      }
    }
  }

  lemma TotalIs(m: Message, base: seq<Slot>, block: seq<Tx>, shortId: Tx -> nat)
    requires Describes(m, base, block, shortId)
    ensures |m.shortIds| + |m.prefilled| == |block| == |base| && |Free(base, 0)| == |m.shortIds|
    ensures Placed(m, base, |m.prefilled|)
  {
  }

  lemma FilledLength(base: seq<Slot>, slots: seq<Slot>, have: seq<bool>, ids: map<nat, nat>, shortId: Tx -> nat,
                     sources: set<Tx>)
    requires Filled(base, slots, have, ids, shortId, sources)
    ensures |slots| == |base|
  {
  }

  /** Where the given transactions are leaves no choice. */
  lemma SameBase(m: Message, a: seq<Slot>, b: seq<Slot>)
    requires Placed(m, a, |m.prefilled|) && Placed(m, b, |m.prefilled|)
    ensures a == b
  {
    forall k | 0 <= k < |a| ensures a[k] == b[k] {
      if a[k].Have? {
        var i :| 0 <= i < |m.prefilled| && Place(m.prefilled, i) == k;
      }
    }
  }
}
