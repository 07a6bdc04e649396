/**
 Saving and loading the address manager.  The saved stream names the entries by
 their rank and leaves out the tried table, the address map and the random order;
 loading rebuilds them from the hashes.  Loading what was saved gives back the
 same two tables and entries up to a renaming of ids.
 */
module AddrManSerial {
  import opened Sets
  import opened M = AddrManModel
  import opened AddrManager
  import Arithmetic

  /** What an entry saves; the rest of it is memory only. */
  datatype Record = Record(
    service: Service, time: int, services: set<nat>, source: nat, lastSuccess: int, attempts: int)

  datatype Token = Num(n: int) | Key(key: nat) | Entry(entry: Record)

  const FORMAT_BIT: int := 0x4000_0000

  /** XOR with 2^30. */
  function Flip(n: int): int { if n / FORMAT_BIT % 2 == 1 then n - FORMAT_BIT else n + FORMAT_BIT }

  function RecordOf(e: Info): Record {
    Record(e.service, e.time, e.services, e.source, e.lastSuccess, e.attempts)
  }

  function Fresh(r: Record, pos: int): Info {
    Info(r.service, r.time, r.services, r.source, 0, 0, r.lastSuccess, r.attempts, 0, false, pos)
  }

  // ----- the entries in the order they are saved

  /** The ids below n on one side of the new/tried divide, in ascending order. */
  function IdsBelow(s: State, n: nat, tried: bool): seq<int> {
    if n == 0 then []
    else if n - 1 in s.info && s.info[n - 1].inTried == tried then IdsBelow(s, n - 1, tried) + [n - 1]
    else IdsBelow(s, n - 1, tried)
  }

  lemma {:induction false} IdsBelowContents(s: State, n: nat, tried: bool)
    ensures forall d :: d in IdsBelow(s, n, tried) <==> 0 <= d < n && d in s.info && s.info[d].inTried == tried
    ensures forall i, j :: 0 <= i < j < |IdsBelow(s, n, tried)| ==>
                           IdsBelow(s, n, tried)[i] < IdsBelow(s, n, tried)[j]
  {
    if n > 0 {
      IdsBelowContents(s, n - 1, tried);
      var a, b := IdsBelow(s, n, tried), IdsBelow(s, n - 1, tried);
      forall i, j | 0 <= i < j < |a| ensures a[i] < a[j] {
        assert j < |b| || b[i] in b;
      }
    }
  }

  lemma {:induction false} IdsBelowPrefix(s: State, m: nat, n: nat, tried: bool)
    requires m <= n
    ensures |IdsBelow(s, m, tried)| <= |IdsBelow(s, n, tried)|
    ensures IdsBelow(s, n, tried)[..|IdsBelow(s, m, tried)|] == IdsBelow(s, m, tried)
  {
    if m < n { IdsBelowPrefix(s, m, n - 1, tried); }
  }

  /** The number an entry of the new table is saved under. */
  function Rank(s: State, id: int): nat { if id < 0 then 0 else |IdsBelow(s, id, false)| }

  ghost function Ids(s: State): seq<int>
    requires 0 <= s.idCount
  {
    IdsBelow(s, s.idCount, false) + IdsBelow(s, s.idCount, true)
  }

  /** Every known id is saved exactly once. */
  lemma IdsComplete(s: State)
    requires Inv(s)
    ensures forall d :: d in Ids(s) <==> d in s.info
    ensures forall i, j :: 0 <= i < j < |Ids(s)| ==> Ids(s)[i] != Ids(s)[j]
  {
    hide Inv, Consistent, IdsBelow;
    IdsBounded(s);
    var a, b, all := IdsBelow(s, s.idCount, false), IdsBelow(s, s.idCount, true), Ids(s);
    IdsBelowContents(s, s.idCount, false);
    IdsBelowContents(s, s.idCount, true);
    forall d ensures d in all <==> d in s.info {
      assert d in all <==> d in a || d in b;
    }
    forall i, j | 0 <= i < j < |all| ensures all[i] != all[j] {
      if i < |a| <= j { assert a[i] in a && b[j - |a|] in b; }
    }
  }

  lemma IdsSplit(s: State)
    requires Inv(s)
    ensures |IdsBelow(s, s.idCount, false)| == s.nNew && |IdsBelow(s, s.idCount, true)| == s.nTried
    ensures 0 <= s.nNew <= |Ids(s)| == s.nNew + s.nTried
    ensures forall i :: 0 <= i < |Ids(s)| ==> Ids(s)[i] in s.info && s.info[Ids(s)[i]].inTried == (s.nNew <= i)
  {
    hide TablesOk, Indexed, Inv;
    IdsBounded(s);
    var a, b, all := IdsBelow(s, s.idCount, false), IdsBelow(s, s.idCount, true), Ids(s);
    IdsBelowContents(s, s.idCount, false);
    IdsBelowContents(s, s.idCount, true);
    SetOf(a, NewIds(s));
    SetOf(b, TriedIds(s));
    forall i | 0 <= i < |all| ensures all[i] in s.info && s.info[all[i]].inTried == (s.nNew <= i) {
      if i < |a| { assert a[i] in a; } else { assert b[i - |a|] in b; }
    }
  }

  lemma IdsBounded(s: State)
    requires Inv(s)
    ensures Counted(s, 0) && 0 <= s.idCount && forall d :: d in s.info ==> 0 <= d < s.idCount
  {
    forall d | d in s.info ensures 0 <= d < s.idCount { assert Filed(s, d, {}); }
  }

  lemma SetOf(a: seq<int>, ids: set<int>)
    requires forall i, j :: 0 <= i < j < |a| ==> a[i] < a[j]
    requires forall d :: d in a <==> d in ids
    ensures |a| == |ids|
  {
    Distinct(a);
    var b := set x | x in a;
    forall d ensures d in b <==> d in ids {}
    assert b == ids;
  }

  lemma {:induction false} Distinct(a: seq<int>)
    requires forall i, j :: 0 <= i < j < |a| ==> a[i] != a[j]
    ensures |set x | x in a| == |a|
  {
    if a != [] {
      var r := a[..|a| - 1];
      Distinct(r);
      var all, rest := set x | x in a, set x | x in r;
      forall d ensures d in all <==> d in rest + {a[|a| - 1]} {}
      assert all == rest + {a[|a| - 1]};
    }
  }

  // ----- the saved stream

  function IdAt(s: State, sl: Slot): int { if sl in s.newTab then s.newTab[sl] else -1 }

  /** The occupied slots of a new bucket below position i, in order. */
  function Row(s: State, bucket: nat, i: nat): seq<Slot> {
    if i == 0 then []
    else if Slot(bucket, i - 1) in s.newTab then Row(s, bucket, i - 1) + [Slot(bucket, i - 1)]
    else Row(s, bucket, i - 1)
  }

  function Ranks(s: State, row: seq<Slot>): seq<Token> {
    seq(|row|, n requires 0 <= n < |row| => Num(Rank(s, IdAt(s, row[n]))))
  }

  function RowTokens(s: State, bucket: nat): seq<Token> {
    [Num(|Row(s, bucket, BUCKET_SIZE)|)] + Ranks(s, Row(s, bucket, BUCKET_SIZE))
  }

  function Rows(s: State, buckets: nat): seq<Token> {
    if buckets == 0 then [] else Rows(s, buckets - 1) + RowTokens(s, buckets - 1)
  }

  predicate Known(s: State, ids: seq<int>) { forall i :: 0 <= i < |ids| ==> ids[i] in s.info }

  function Records(s: State, ids: seq<int>): seq<Token>
    requires Known(s, ids)
  {
    seq(|ids|, i requires 0 <= i < |ids| => Entry(RecordOf(s.info[ids[i]])))
  }

  function Header(s: State): seq<Token> {
    [Num(1), Num(32), Key(s.key), Num(s.nNew), Num(s.nTried), Num(Flip(NEW_BUCKET_COUNT))]
  }

  ghost function Encode(s: State): seq<Token>
    requires Inv(s)
  {
    IdsBounded(s);
    IdsSplit(s);
    Header(s) + Records(s, Ids(s)) + Rows(s, NEW_BUCKET_COUNT)
  }

  // ----- saving

  lemma RecordsGrow(s: State, id: nat, tried: bool)
    ensures Known(s, IdsBelow(s, id, tried)) && Known(s, IdsBelow(s, id + 1, tried))
    ensures Records(s, IdsBelow(s, id + 1, tried)) ==
            if id in s.info && s.info[id].inTried == tried
            then Records(s, IdsBelow(s, id, tried)) + [Entry(RecordOf(s.info[id]))]
            else Records(s, IdsBelow(s, id, tried))
  {
    IdsBelowContents(s, id, tried);
    IdsBelowContents(s, id + 1, tried);
    var a, b := IdsBelow(s, id, tried), IdsBelow(s, id + 1, tried);
    forall i | 0 <= i < |a| ensures a[i] in s.info { assert a[i] in a; }
    forall i | 0 <= i < |b| ensures b[i] in s.info { assert b[i] in b; }
  }

  /** An entry still to be saved keeps the running count below the final one. */
  lemma CountNotReached(s: State, id: nat, tried: bool)
    requires id < s.idCount && id in s.info && s.info[id].inTried == tried
    ensures |IdsBelow(s, id, tried)| < |IdsBelow(s, s.idCount, tried)|
  {
    IdsBelowPrefix(s, id + 1, s.idCount, tried);
  }

  lemma ListedIffNew(s: State, id: int)
    requires Inv(s) && id in s.info
    ensures s.info[id].refCount != 0 <==> !s.info[id].inTried
  {
    assert Filed(s, id, {});
  }

  method SaveNew(m: AddrMan) returns (out: seq<Token>, unkIds: map<int, int>)
    requires m.Valid() && m.nIdCount >= 0
    requires Known(m.Model(), Ids(m.Model()))
    ensures out == Records(m.Model(), Ids(m.Model())[..|IdsBelow(m.Model(), m.nIdCount, false)|])
    ensures forall d :: d in m.mapInfo ==> d in unkIds && unkIds[d] == Rank(m.Model(), d)
  {
    hide Slots, Inv;
    ghost var s := m.Model();
    IdsBounded(s);
    IdsSplit(s);
    out, unkIds := [], map[];
    var nIds := 0;
    RecordsGrow(s, 0, false);
    for id := 0 to m.nIdCount
      invariant s == m.Model() && nIds == |IdsBelow(s, id, false)|
      invariant Known(s, IdsBelow(s, id, false))
      invariant out == Records(s, IdsBelow(s, id, false))
      invariant forall d :: d in s.info && d < id ==> d in unkIds && unkIds[d] == Rank(s, d)
    {
      RecordsGrow(s, id, false);
      if id in m.mapInfo {
        ListedIffNew(s, id);
        unkIds := unkIds[id := nIds];
        if m.mapInfo[id].refCount != 0 {
          CountNotReached(s, id, false);
          assert nIds != m.nNew;
          out := out + [Entry(RecordOf(m.mapInfo[id]))];
          nIds := nIds + 1;
        }
      }
    }
    assert Ids(s)[..|IdsBelow(s, s.idCount, false)|] == IdsBelow(s, s.idCount, false);
  }

  method SaveTried(m: AddrMan) returns (out: seq<Token>)
    requires m.Valid() && m.nIdCount >= 0
    requires Known(m.Model(), Ids(m.Model()))
    ensures out == Records(m.Model(), Ids(m.Model())[|IdsBelow(m.Model(), m.nIdCount, false)|..])
  {
    hide Slots, Inv;
    ghost var s := m.Model();
    IdsBounded(s);
    IdsSplit(s);
    out := [];
    var nIds := 0;
    RecordsGrow(s, 0, true);
    for id := 0 to m.nIdCount
      invariant s == m.Model() && nIds == |IdsBelow(s, id, true)|
      invariant Known(s, IdsBelow(s, id, true))
      invariant out == Records(s, IdsBelow(s, id, true))
    {
      RecordsGrow(s, id, true);
      if id in m.mapInfo && m.mapInfo[id].inTried {
        CountNotReached(s, id, true);
        assert nIds != m.nTried;
        out := out + [Entry(RecordOf(m.mapInfo[id]))];
        nIds := nIds + 1;
      }
    }
    assert Ids(s)[|IdsBelow(s, s.idCount, false)|..] == IdsBelow(s, s.idCount, true);
  }

  method SaveBuckets(m: AddrMan, unkIds: map<int, int>) returns (out: seq<Token>)
    requires m.Valid() && forall d :: d in m.mapInfo ==> d in unkIds && unkIds[d] == Rank(m.Model(), d)
    ensures out == Rows(m.Model(), NEW_BUCKET_COUNT)
  {
    hide Slots, Inv, Rank;
    ghost var s := m.Model();
    out := [];
    for bucket := 0 to NEW_BUCKET_COUNT
      invariant s == m.Model() && out == Rows(s, bucket)
    {
      var nSize := 0;
      for i := 0 to BUCKET_SIZE
        invariant s == m.Model() && nSize == |Row(s, bucket, i)|
      {
        SlotAt(m.vvNew, bucket, i);
        if m.vvNew[bucket, i] != -1 {
          nSize := nSize + 1;
        }
      }
      var row := [];
      for i := 0 to BUCKET_SIZE
        invariant s == m.Model() && row == Ranks(s, Row(s, bucket, i))
      {
        SlotAt(m.vvNew, bucket, i);
        var id := m.vvNew[bucket, i];
        if id != -1 {
          HeldInNew(s, Slot(bucket, i));
          row := row + [Num(unkIds[id])];
        }
      }
      out := out + ([Num(nSize)] + row);
    }
  }

  lemma HeldInNew(s: State, sl: Slot)
    requires Inv(s) && sl in s.newTab
    ensures s.newTab[sl] in s.info
  {
    assert NewSlotOk(s, sl);
  }

  method Serialize(m: AddrMan) returns (out: seq<Token>)
    requires m.Valid()
    ensures out == Encode(m.Model())
  {
    hide Slots, Inv, Records, Rows, IdsBelow;
    ghost var s := m.Model();
    IdsBounded(s);
    IdsSplit(s);
    var news, unkIds := SaveNew(m);
    var trieds := SaveTried(m);
    var buckets := SaveBuckets(m, unkIds);
    out := [Num(1), Num(32), Key(m.nKey), Num(m.nNew), Num(m.nTried), Num(Flip(NEW_BUCKET_COUNT))]
           + news + trieds + buckets;
    RecordsSplit(s, Ids(s), |IdsBelow(s, s.idCount, false)|);
    assert Header(s) + news + trieds + buckets == Header(s) + (news + trieds) + buckets;
  }

  lemma RecordsSplit(s: State, ids: seq<int>, k: nat)
    requires Known(s, ids) && k <= |ids|
    ensures Records(s, ids[..k]) + Records(s, ids[k..]) == Records(s, ids)
  {
  }

  // ----- what loading rebuilds

  /** A loaded entry: the address with its date and services, where it came from, the last success,
      the failures since and whether it is tried are as saved; when it was last tried is forgotten. */
  ghost predicate Restored(e: Info, d: Info, pos: int) {
    && e.service == d.service && e.time == d.time && e.services == d.services && e.source == d.source
    && e.lastSuccess == d.lastSuccess && e.attempts == d.attempts && e.inTried == d.inTried
    && e.lastTry == 0 && e.lastCountAttempt == 0 && e.randomPos == pos
  }

  /** Saved entry j is loaded under id j: listed, found by its address, and in its tried slot if it was tried. */
  ghost predicate LoadedEntry(t: State, s: State, d: Info, j: nat) {
    && j in t.info && j < |t.random| && t.random[j] == j && Restored(t.info[j], d, j)
    && d.service.ip in t.addr && t.addr[d.service.ip] == j
    && (d.inTried ==> TriedSlot(s, d.service) in t.triedTab && t.triedTab[TriedSlot(s, d.service)] == j)
  }

  /** The first m saved entries are loaded, under the ids 0 to m-1, and nothing else is. */
  ghost predicate Loaded(t: State, s: State, m: nat)
    requires 0 <= s.idCount && m <= |Ids(s)| && Known(s, Ids(s))
  {
    && t.env == s.env && t.key == s.key && |t.random| == m
    && (forall j :: 0 <= j < m ==> LoadedEntry(t, s, s.info[Ids(s)[j]], j))
    && (forall j :: j in t.info ==> 0 <= j < m)
    && (forall a :: a in t.addr ==> 0 <= t.addr[a] < m && s.info[Ids(s)[t.addr[a]]].service.ip == a)
    && (forall sl :: sl in t.triedTab ==> 0 <= t.triedTab[sl] < m && HeldBy(s, Ids(s)[t.triedTab[sl]], sl))
  }

  ghost predicate HeldBy(s: State, d: int, sl: Slot) {
    d in s.info && s.info[d].inTried && TriedSlot(s, s.info[d].service) == sl
  }

  /** The slot is filled, with the new id of its old holder. */
  ghost predicate ListedSlot(t: State, s: State, sl: Slot)
    requires 0 <= s.idCount
  {
    sl in t.newTab && sl in s.newTab && 0 <= t.newTab[sl] < |Ids(s)| && Ids(s)[t.newTab[sl]] == s.newTab[sl]
  }

  /** Exactly the slots in `seen` are filled, and the reference counts say so. */
  ghost predicate Listed(t: State, s: State, seen: set<Slot>)
    requires 0 <= s.idCount
  {
    && (forall sl :: sl in t.newTab ==> sl in seen)
    && (forall sl :: sl in seen ==> ListedSlot(t, s, sl))
    && (forall j :: j in t.info ==> t.info[j].refCount == |SlotsOf(t.newTab, j)|)
  }

  function LoadNewEntry(t: State, r: Record, id: int): State {
    t.(info := t.info[id := Fresh(r, |t.random|)], addr := t.addr[r.service.ip := id], random := t.random + [id])
  }

  function LoadTriedEntry(t: State, r: Record): State {
    var k := TriedSlot(t, r.service);
    if k in t.triedTab then t else
    t.(info := t.info[t.idCount := Fresh(r, |t.random|).(inTried := true)], addr := t.addr[r.service.ip := t.idCount],
       random := t.random + [t.idCount], triedTab := t.triedTab[k := t.idCount], idCount := t.idCount + 1)
  }

  lemma SavedAddress(s: State, i: int, j: int)
    requires Inv(s) && Known(s, Ids(s)) && 0 <= i < |Ids(s)| && 0 <= j < |Ids(s)| && i != j
    ensures s.info[Ids(s)[i]].service.ip != s.info[Ids(s)[j]].service.ip
  {
    IdsComplete(s);
    var a, b := Ids(s)[i], Ids(s)[j];
    assert Filed(s, a, {}) && Filed(s, b, {});
    assert a != b;
  }

  lemma LoadNewStep(t: State, s: State, m: nat)
    requires Inv(s) && Known(s, Ids(s)) && m < |Ids(s)| && Loaded(t, s, m) && !s.info[Ids(s)[m]].inTried
    ensures Loaded(LoadNewEntry(t, RecordOf(s.info[Ids(s)[m]]), m), s, m + 1)
  {
    hide Consistent, Ids;
    IdsBounded(s);
    var all := Ids(s);
    var u := LoadNewEntry(t, RecordOf(s.info[all[m]]), m);
    forall j | 0 <= j < m + 1 ensures LoadedEntry(u, s, s.info[all[j]], j) {
      if j < m {
        SavedAddress(s, j, m);
        assert LoadedEntry(t, s, s.info[all[j]], j);
      }
    }
  }

  lemma SlotFree(t: State, s: State, m: nat)
    requires Inv(s) && Known(s, Ids(s)) && m < |Ids(s)| && Loaded(t, s, m) && s.info[Ids(s)[m]].inTried
    ensures var svc := s.info[Ids(s)[m]].service;
            RecordOf(s.info[Ids(s)[m]]).service == svc && TriedSlot(t, svc) == TriedSlot(s, svc)
            && TriedSlot(s, svc) !in t.triedTab
  {
    hide Consistent, Ids;
    IdsBounded(s);
    var k := TriedSlot(s, s.info[Ids(s)[m]].service);
    if k in t.triedTab {
      var j := t.triedTab[k];
      assert HeldBy(s, Ids(s)[j], k);
      SavedSlot(s, j, m);
    }
  }

  lemma LoadTriedStep(t: State, s: State, m: nat)
    requires Inv(s) && Known(s, Ids(s)) && m < |Ids(s)| && Loaded(t, s, m) && s.info[Ids(s)[m]].inTried
    requires t.idCount == m
    ensures var r := RecordOf(s.info[Ids(s)[m]]);
            TriedSlot(t, r.service) !in t.triedTab && Loaded(LoadTriedEntry(t, r), s, m + 1)
  {
    hide Consistent, Ids, RecordOf, Restored;
    IdsBounded(s);
    var all := Ids(s);
    var r := RecordOf(s.info[all[m]]);
    SlotFree(t, s, m);
    var u := LoadTriedEntry(t, r);
    forall j | 0 <= j < m + 1 ensures LoadedEntry(u, s, s.info[all[j]], j) {
      if j < m { StillLoaded(t, s, m, j); } else { FreshRestored(s.info[all[m]], m); }
    }
  }

  lemma FreshRestored(d: Info, pos: int)
    ensures Restored(Fresh(RecordOf(d), pos).(inTried := d.inTried), d, pos)
  {
  }

  lemma StillLoaded(t: State, s: State, m: nat, j: nat)
    requires Inv(s) && Known(s, Ids(s)) && j < m < |Ids(s)| && Loaded(t, s, m) && s.info[Ids(s)[m]].inTried
    requires t.idCount == m
    ensures LoadedEntry(LoadTriedEntry(t, RecordOf(s.info[Ids(s)[m]])), s, s.info[Ids(s)[j]], j)
  {
    hide Inv, Consistent, Ids, Restored;
    IdsBounded(s);
    SavedAddress(s, j, m);
    assert LoadedEntry(t, s, s.info[Ids(s)[j]], j);
    if s.info[Ids(s)[j]].inTried { SavedSlot(s, j, m); }
  }

  lemma SavedSlot(s: State, i: int, j: int)
    requires Inv(s) && Known(s, Ids(s)) && 0 <= i < |Ids(s)| && 0 <= j < |Ids(s)| && i != j
    requires s.info[Ids(s)[i]].inTried && s.info[Ids(s)[j]].inTried
    ensures TriedSlot(s, s.info[Ids(s)[i]].service) != TriedSlot(s, s.info[Ids(s)[j]].service)
  {
    IdsComplete(s);
    var a, b := Ids(s)[i], Ids(s)[j];
    assert Filed(s, a, {}) && Filed(s, b, {});
    assert a != b;
  }

  // ----- the rows of the new table

  lemma {:induction false} RowContents(s: State, bucket: nat, i: nat)
    ensures forall sl :: sl in Row(s, bucket, i) <==> sl in s.newTab && sl.bucket == bucket && sl.pos < i
    ensures forall m, n :: 0 <= m < n < |Row(s, bucket, i)| ==>
                           Row(s, bucket, i)[m].pos < Row(s, bucket, i)[n].pos
  {
    if i > 0 {
      RowContents(s, bucket, i - 1);
      var a, b := Row(s, bucket, i), Row(s, bucket, i - 1);
      forall m, n | 0 <= m < n < |a| ensures a[m].pos < a[n].pos {
        assert n < |b| || b[m] in b;
      }
    }
  }

  lemma {:induction false} RowsPrefix(s: State, b: nat, buckets: nat)
    requires b < buckets
    ensures |Rows(s, b)| + |RowTokens(s, b)| <= |Rows(s, buckets)|
    ensures Rows(s, buckets)[|Rows(s, b)|..|Rows(s, b)| + |RowTokens(s, b)|] == RowTokens(s, b)
  {
    hide RowTokens;
    var front, last := Rows(s, buckets - 1), RowTokens(s, buckets - 1);
    assert Rows(s, buckets) == front + last;
    if b < buckets - 1 {
      RowsPrefix(s, b, buckets - 1);
      var i, j := |Rows(s, b)|, |Rows(s, b)| + |RowTokens(s, b)|;
      assert (front + last)[i..j] == front[i..j];
    } else {
      assert (front + last)[|front|..|front| + |last|] == last;
    }
  }

  /** The slots of the buckets before b, and the first n of bucket b. */
  ghost function Seen(s: State, b: nat, n: nat): set<Slot>
    requires n <= |Row(s, b, BUCKET_SIZE)|
  {
    set sl | sl in s.newTab && (sl.bucket < b || sl in Row(s, b, BUCKET_SIZE)[..n])
  }

  lemma SeenStep(s: State, b: nat, n: nat)
    requires Inv(s) && n < |Row(s, b, BUCKET_SIZE)|
    ensures var sl := Row(s, b, BUCKET_SIZE)[n];
            && sl in s.newTab && sl.bucket == b && sl !in Seen(s, b, n) && Seen(s, b, n + 1) == Seen(s, b, n) + {sl}
            && s.newTab[sl] in s.info && !s.info[s.newTab[sl]].inTried
            && sl == Slot(b, NewPosition(s, s.info[s.newTab[sl]].service, b))
  {
    var row := Row(s, b, BUCKET_SIZE);
    RowContents(s, b, BUCKET_SIZE);
    assert row[n] in row;
    assert NewSlotOk(s, row[n]);
    assert row[..n + 1] == row[..n] + [row[n]];
  }

  lemma SeenRow(s: State, b: nat)
    requires Inv(s)
    ensures Seen(s, b, |Row(s, b, BUCKET_SIZE)|) == Seen(s, b + 1, 0)
  {
    var row := Row(s, b, BUCKET_SIZE);
    RowContents(s, b, BUCKET_SIZE);
    assert row[..|row|] == row;
    forall sl | sl in s.newTab ensures sl.pos < BUCKET_SIZE { assert NewSlotOk(s, sl); }
  }

  lemma SeenAll(s: State)
    requires Inv(s)
    ensures Seen(s, 0, 0) == {} && Seen(s, NEW_BUCKET_COUNT, 0) == s.newTab.Keys
  {
    forall sl | sl in s.newTab ensures sl.bucket < NEW_BUCKET_COUNT { assert NewSlotOk(s, sl); }
  }

  lemma RankFinds(s: State, id: int)
    requires Inv(s) && id in s.info && !s.info[id].inTried
    ensures Rank(s, id) < s.nNew && s.nNew <= |Ids(s)| && Ids(s)[Rank(s, id)] == id
  {
    IdsBounded(s);
    IdsSplit(s);
    IdsBelowPrefix(s, id + 1, s.idCount, false);
    var a := IdsBelow(s, id + 1, false);
    assert a[|a| - 1] == id;
  }

  lemma PutSlotRefs(t: State, sl: Slot, j: int)
    requires j in t.info && sl !in t.newTab
    requires forall i :: i in t.info ==> t.info[i].refCount == |SlotsOf(t.newTab, i)|
    ensures var u := PutSlot(t, sl, j); forall i :: i in u.info ==> u.info[i].refCount == |SlotsOf(u.newTab, i)|
  {
    var u := PutSlot(t, sl, j);
    forall i | i in u.info ensures u.info[i].refCount == |SlotsOf(u.newTab, i)| {
      if i == j {
        assert SlotsOf(u.newTab, i) == SlotsOf(t.newTab, i) + {sl};
      } else {
        assert SlotsOf(u.newTab, i) == SlotsOf(t.newTab, i);
      }
    }
  }

  /** Filling one more slot of the table. */
  lemma ListStep(t: State, s: State, seen: set<Slot>, sl: Slot, j: int)
    requires 0 <= s.idCount && Listed(t, s, seen) && sl in s.newTab && sl !in seen
    requires j in t.info && 0 <= j < |Ids(s)| && Ids(s)[j] == s.newTab[sl]
    ensures Listed(PutSlot(t, sl, j), s, seen + {sl})
  {
    hide Ids, SlotsOf;
    PutSlotRefs(t, sl, j);
    var u := PutSlot(t, sl, j);
    forall x | x in seen + {sl} ensures ListedSlot(u, s, x) { if x != sl { assert ListedSlot(t, s, x); } }
  }

  /** A loaded entry is in as many slots as the saved one, of those seen. */
  lemma ListedRefs(t: State, s: State, seen: set<Slot>, j: int)
    requires Inv(s) && Listed(t, s, seen) && 0 <= j < |Ids(s)| && Ids(s)[j] in s.info
    ensures |SlotsOf(t.newTab, j)| <= s.info[Ids(s)[j]].refCount
    ensures seen == s.newTab.Keys ==> |SlotsOf(t.newTab, j)| == s.info[Ids(s)[j]].refCount
    ensures forall sl :: sl in s.newTab && sl !in seen && s.newTab[sl] == Ids(s)[j] ==>
              |SlotsOf(t.newTab, j)| < s.info[Ids(s)[j]].refCount
  {
    hide Ids, Consistent;
    IdsBounded(s);
    IdsComplete(s);
    var d := Ids(s)[j];
    FiledAt(s, d);
    var a, b := SlotsOf(t.newTab, j), SlotsOf(s.newTab, d);
    forall sl | sl in a ensures sl in b { assert ListedSlot(t, s, sl); }
    SubsetSize(a, b);
    forall sl | sl in s.newTab && sl !in seen && s.newTab[sl] == d ensures |a| < |b| {
      assert a <= b - {sl};
      SubsetSize(a, b - {sl});
    }
    if seen == s.newTab.Keys {
      forall sl | sl in b ensures sl in a { assert ListedSlot(t, s, sl); }
      assert a == b;
    }
  }

  lemma FiledAt(s: State, d: int)
    requires Inv(s) && d in s.info
    ensures Filed(s, d, {})
  {
  }

  // ----- loading

  /** Indexed, with every id below the id counter. */
  ghost predicate Numbered(t: State, n: int) { Indexed(t) && forall j :: j in t.info ==> j < n }

  lemma AppendNumbered(t: State, u: State, id: int)
    requires Numbered(t, id) && u.random == t.random + [id]
    requires id in u.info && u.info == t.info[id := u.info[id]] && u.info[id].randomPos == |t.random|
    ensures Numbered(u, id + 1)
  {
    assert u.info.Keys == t.info.Keys + {id};
    forall d | d in u.info ensures IndexedEntry(u, d) { if d != id { assert IndexedEntry(t, d); } }
    forall i | 0 <= i < |u.random| ensures IndexedPos(u, i) { if i < |t.random| { assert IndexedPos(t, i); } }
  }

  /** The stream holds the saved entries of s from position c on. */
  ghost predicate HoldsRecords(input: seq<Token>, c: nat, s: State)
    requires 0 <= s.idCount && Known(s, Ids(s))
  {
    c + |Ids(s)| <= |input|
    && forall j :: 0 <= j < |Ids(s)| ==> input[c + j] == Entry(RecordOf(s.info[Ids(s)[j]]))
  }

  lemma HoldsAt(input: seq<Token>, c: nat, s: State, j: nat)
    requires 0 <= s.idCount && Known(s, Ids(s)) && HoldsRecords(input, c, s) && j < |Ids(s)|
    ensures c + j < |input| && input[c + j] == Entry(RecordOf(s.info[Ids(s)[j]]))
  {
  }

  lemma NothingLoaded(t: State)
    requires t.info == map[] && t.random == []
    ensures Numbered(t, 0)
  {
  }

  lemma LoadedNone(t: State, s: State)
    requires 0 <= s.idCount && Known(s, Ids(s)) && t.env == s.env && t.key == s.key
    requires t.info == map[] && t.addr == map[] && t.random == [] && t.triedTab == map[]
    ensures Loaded(t, s, 0)
  {
  }

  method LoadNew(m: AddrMan, input: seq<Token>, start: nat, nNew: int, sameFormat: bool, ghost s: State,
                 ghost good: bool)
    returns (ok: bool, c: nat)
    requires m.Shaped() && m.mapInfo == map[] && m.mapAddr == map[] && m.vRandom == []
    requires Slots(m.vvNew) == map[] && Slots(m.vvTried) == map[]
    requires good ==> Inv(s) && Known(s, Ids(s)) && s.env == m.env && s.key == m.nKey && nNew == s.nNew && sameFormat
                      && HoldsRecords(input, start, s)
    modifies m`mapInfo, m`mapAddr, m`vRandom, m.vvNew
    ensures ok ==> Numbered(m.Model(), nNew)
    ensures ok ==> forall j :: 0 <= j < nNew ==> j in m.mapInfo
    ensures Slots(m.vvTried) == map[]
    ensures good ==> ok && c == start + nNew && nNew <= |Ids(s)| && Loaded(m.Model(), s, nNew)
    ensures good ==> Slots(m.vvNew) == map[] && forall j :: j in m.mapInfo ==> m.mapInfo[j].refCount == 0
  {
    hide Slots, Consistent, Ids, Loaded, Indexed, Inv, HoldsRecords;
    ok, c := true, start;
    NothingLoaded(m.Model());
    if good { IdsBounded(s); IdsSplit(s); LoadedNone(m.Model(), s); }
    var last := if nNew < 0 then 0 else nNew;
    for n := 0 to last
      invariant ok && c == start + n && Numbered(m.Model(), n) && (n == 0 ==> m.mapInfo == map[])
      invariant forall j :: 0 <= j < n ==> j in m.mapInfo
      invariant Slots(m.vvTried) == map[]
      invariant good ==> Loaded(m.Model(), s, n)
      invariant good ==> Slots(m.vvNew) == map[] && forall j :: j in m.mapInfo ==> m.mapInfo[j].refCount == 0
    {
      ghost var before := m.Model();
      if good { HoldsAt(input, start, s, n); LoadNewStep(before, s, n); }
      if c >= |input| || !input[c].Entry? { return false, c; }
      var r := input[c].entry;
      c := c + 1;
      m.mapInfo := m.mapInfo[n := Fresh(r, |m.vRandom|)];
      m.mapAddr := m.mapAddr[r.service.ip := n];
      m.vRandom := m.vRandom + [n];
      assert m.Model() == LoadNewEntry(before, r, n);
      AppendNumbered(before, m.Model(), n);
      if !sameFormat {
        PlaceByHash(m, n);
      }
    }
  }

  /** Without usable table data an entry gets the slot of its own source, if that is free. */
  method PlaceByHash(m: AddrMan, n: int)
    requires m.Shaped() && n in m.mapInfo
    modifies m`mapInfo, m.vvNew
    ensures forall k :: Numbered(old(m.Model()), k) ==> Numbered(m.Model(), k)
    ensures forall j :: j in m.mapInfo <==> j in old(m.mapInfo)
    ensures Slots(m.vvTried) == old(Slots(m.vvTried))
  {
    hide Slots, Indexed;
    ghost var before := m.Model();
    var e := m.mapInfo[n];
    var b := NewBucket(m.env, m.nKey, e.service, e.source);
    var pos := BucketPosition(m.env, m.nKey, true, b, e.service);
    if m.vvNew[b, pos] == -1 {
      SetCell(m.vvNew, b, pos, n);
      m.mapInfo := m.mapInfo[n := e.(refCount := e.refCount + 1)];
    }
    if Indexed(before) { SameIndex(before, m.Model()); }
  }

  method LoadTried(m: AddrMan, input: seq<Token>, c0: nat, nTried: int, ghost start: nat, ghost s: State,
                   ghost good: bool)
    returns (ok: bool, c: nat, lost: int)
    requires m.Shaped() && Numbered(m.Model(), m.nIdCount)
    requires good ==> Inv(s) && Known(s, Ids(s)) && nTried == s.nTried && s.nNew == m.nIdCount && c0 == start + s.nNew
                      && HoldsRecords(input, start, s) && s.nNew <= |Ids(s)| && Loaded(m.Model(), s, s.nNew)
                      && Slots(m.vvNew) == map[] && forall j :: j in m.mapInfo ==> m.mapInfo[j].refCount == 0
    modifies m`mapInfo, m`mapAddr, m`vRandom, m`nIdCount, m.vvTried
    ensures ok ==> Numbered(m.Model(), m.nIdCount)
    ensures forall j :: j in old(m.mapInfo) ==> j in m.mapInfo
    ensures good ==> ok && lost == 0 && c == start + |Ids(s)| && m.nIdCount == |Ids(s)|
                     && Loaded(m.Model(), s, |Ids(s)|)
    ensures good ==> Slots(m.vvNew) == map[] && forall j :: j in m.mapInfo ==> m.mapInfo[j].refCount == 0
  {
    hide Slots, Consistent, Ids, Loaded, Indexed, Inv, HoldsRecords;
    ghost var first := m.nIdCount;
    ok, c, lost := true, c0, 0;
    if good { IdsBounded(s); IdsSplit(s); }
    var last := if nTried < 0 then 0 else nTried;
    for n := 0 to last
      invariant ok && Numbered(m.Model(), m.nIdCount)
      invariant forall j :: j in old(m.mapInfo) ==> j in m.mapInfo
      invariant good ==> lost == 0 && c == start + first + n && m.nIdCount == first + n
      invariant good ==> Loaded(m.Model(), s, first + n)
      invariant good ==> Slots(m.vvNew) == map[] && forall j :: j in m.mapInfo ==> m.mapInfo[j].refCount == 0
    {
      ghost var before := m.Model();
      if good { HoldsAt(input, start, s, first + n); LoadTriedStep(before, s, first + n); }
      if c >= |input| || !input[c].Entry? { return false, c, lost; }
      var r := input[c].entry;
      c := c + 1;
      var stored := StoreTried(m, r);
      if !stored { lost := lost + 1; }
    }
  }

  /** Puts a record in its tried slot, under the next id, unless the slot is taken. */
  method StoreTried(m: AddrMan, r: Record) returns (stored: bool)
    requires m.Shaped() && Numbered(m.Model(), m.nIdCount)
    modifies m`mapInfo, m`mapAddr, m`vRandom, m`nIdCount, m.vvTried
    ensures Numbered(m.Model(), m.nIdCount)
    ensures old(m.nIdCount) >= 0 ==> m.Model() == LoadTriedEntry(old(m.Model()), r)
    ensures stored <==> TriedSlot(old(m.Model()), r.service) !in old(m.Model()).triedTab
    ensures forall j :: j in m.mapInfo && j !in old(m.mapInfo) ==> m.mapInfo[j].refCount == 0
    ensures forall j :: j in old(m.mapInfo) ==> j in m.mapInfo && m.mapInfo[j].refCount == old(m.mapInfo[j].refCount)
  {
    hide Slots, Indexed;
    ghost var before := m.Model();
    var kBucket := TriedBucket(m.env, m.nKey, r.service);
    var kPos := BucketPosition(m.env, m.nKey, false, kBucket, r.service);
    SlotAt(m.vvTried, kBucket, kPos);
    var id := m.nIdCount;
    stored := m.vvTried[kBucket, kPos] == -1;
    if stored {
      m.mapInfo := m.mapInfo[id := Fresh(r, |m.vRandom|).(inTried := true)];
      m.vRandom := m.vRandom + [id];
      m.mapAddr := m.mapAddr[r.service.ip := id];
      SetCell(m.vvTried, kBucket, kPos, id);
      m.nIdCount := m.nIdCount + 1;
      AppendNumbered(before, m.Model(), id);
    }
  }

  /** The stream holds the saved table rows of s from position c on. */
  ghost predicate HoldsRows(input: seq<Token>, c: nat, s: State) {
    c + |Rows(s, NEW_BUCKET_COUNT)| <= |input|
    && input[c..c + |Rows(s, NEW_BUCKET_COUNT)|] == Rows(s, NEW_BUCKET_COUNT)
  }

  lemma RowsNext(s: State, b: nat)
    ensures |Rows(s, b + 1)| == |Rows(s, b)| + |RowTokens(s, b)|
  {
  }

  lemma RowTokensAre(s: State, b: nat)
    ensures var row, t := Row(s, b, BUCKET_SIZE), RowTokens(s, b);
            && |t| == 1 + |row| && t[0] == Num(|row|)
            && forall n :: 0 <= n < |row| ==> t[1 + n] == Num(Rank(s, IdAt(s, row[n])))
  {
  }

  lemma RowAt(input: seq<Token>, start: nat, s: State, b: nat)
    requires HoldsRows(input, start, s) && b < NEW_BUCKET_COUNT
    ensures var c, row := start + |Rows(s, b)|, Row(s, b, BUCKET_SIZE);
            && c + 1 + |row| <= |input| && input[c] == Num(|row|)
            && (forall n :: 0 <= n < |row| ==> input[c + 1 + n] == Num(Rank(s, IdAt(s, row[n]))))
            && |Rows(s, b + 1)| == |Rows(s, b)| + 1 + |row|
  {
    hide Rows, RowTokens, Row, Rank;
    RowsPrefix(s, b, NEW_BUCKET_COUNT);
    RowTokensAre(s, b);
    RowsNext(s, b);
    var all, c, row := Rows(s, NEW_BUCKET_COUNT), start + |Rows(s, b)|, Row(s, b, BUCKET_SIZE);
    var t := RowTokens(s, b);
    forall k | 0 <= k < |t| ensures input[c + k] == t[k] {
      assert input[start..start + |all|][|Rows(s, b)| + k] == all[|Rows(s, b)|..|Rows(s, b)| + |t|][k];
    }
    assert input[c + 0] == t[0];
    forall n | 0 <= n < |row| ensures input[c + 1 + n] == Num(Rank(s, IdAt(s, row[n]))) {
      assert input[c + (1 + n)] == t[1 + n];
    }
  }

  /** Reading one index puts its entry in one more slot, in the slot it was saved from. */
  lemma ReadStep(t: State, s: State, b: nat, n: nat)
    requires Inv(s) && Known(s, Ids(s)) && n < |Row(s, b, BUCKET_SIZE)|
    requires Loaded(t, s, |Ids(s)|) && Listed(t, s, Seen(s, b, n))
    ensures var sl := Row(s, b, BUCKET_SIZE)[n]; var j := Rank(s, IdAt(s, sl));
            && 0 <= j < s.nNew && j in t.info && sl == Slot(b, NewPosition(t, t.info[j].service, b))
            && sl !in t.newTab && t.info[j].refCount < NEW_BUCKETS_PER_ADDRESS
            && Listed(PutSlot(t, sl, j), s, Seen(s, b, n + 1))
  {
    hide Ids, Consistent, Rank;
    IdsBounded(s);
    IdsSplit(s);
    SeenStep(s, b, n);
    var sl := Row(s, b, BUCKET_SIZE)[n];
    var d := s.newTab[sl];
    RankFinds(s, d);
    var j := Rank(s, d);
    assert LoadedEntry(t, s, s.info[Ids(s)[j]], j);
    ListedRefs(t, s, Seen(s, b, n), j);
    FiledAt(s, d);
    ListStep(t, s, Seen(s, b, n), sl, j);
  }

  lemma PutKeepsLoaded(t: State, s: State, sl: Slot, j: nat)
    requires 0 <= s.idCount && Known(s, Ids(s)) && j in t.info && Loaded(t, s, |Ids(s)|)
    ensures Loaded(PutSlot(t, sl, j), s, |Ids(s)|)
  {
    hide Ids;
    var u := PutSlot(t, sl, j);
    forall i | 0 <= i < |Ids(s)| ensures LoadedEntry(u, s, s.info[Ids(s)[i]], i) {
      assert LoadedEntry(t, s, s.info[Ids(s)[i]], i);
    }
  }

  method LoadRow(m: AddrMan, input: seq<Token>, c0: nat, bucket: nat, nSize: int, nNew: int, sameFormat: bool,
                 ghost s: State, ghost good: bool)
    returns (ok: bool, c: nat)
    requires m.Shaped() && (sameFormat ==> bucket < NEW_BUCKET_COUNT) && Indexed(m.Model())
    requires forall j :: 0 <= j < nNew ==> j in m.mapInfo
    requires good ==> Inv(s) && Known(s, Ids(s)) && sameFormat && nNew == s.nNew && Loaded(m.Model(), s, |Ids(s)|)
    requires good ==> var row := Row(s, bucket, BUCKET_SIZE);
                      && nSize == |row| && c0 + |row| <= |input| && Listed(m.Model(), s, Seen(s, bucket, 0))
                      && forall n :: 0 <= n < |row| ==> input[c0 + n] == Num(Rank(s, IdAt(s, row[n])))
    modifies m`mapInfo, m.vvNew
    ensures Indexed(m.Model()) && forall j :: j in m.mapInfo <==> j in old(m.mapInfo)
    ensures good ==> ok && c == c0 + nSize && Loaded(m.Model(), s, |Ids(s)|)
                     && Listed(m.Model(), s, Seen(s, bucket, |Row(s, bucket, BUCKET_SIZE)|))
  {
    hide Slots, Consistent, Ids, Loaded, Listed, Indexed, Inv, Seen, Row, Rank, PutSlot;
    ok, c := true, c0;
    var last := if nSize < 0 then 0 else nSize;
    if good { IdsBounded(s); }
    for n := 0 to last
      invariant ok && c == c0 + n && Indexed(m.Model()) && forall j :: j in m.mapInfo <==> j in old(m.mapInfo)
      invariant good ==> Loaded(m.Model(), s, |Ids(s)|) && Listed(m.Model(), s, Seen(s, bucket, n))
    {
      ghost var before := m.Model();
      if good {
        assert input[c0 + n] == Num(Rank(s, IdAt(s, Row(s, bucket, BUCKET_SIZE)[n])));
        ReadStep(before, s, bucket, n);
      }
      if c >= |input| || !input[c].Num? { return false, c; }
      var index := input[c].n;
      c := c + 1;
      if 0 <= index < nNew {
        var e := m.mapInfo[index];
        var pos := BucketPosition(m.env, m.nKey, true, bucket, e.service);
        if sameFormat {
          SlotAt(m.vvNew, bucket, pos);
          if m.vvNew[bucket, pos] == -1 && e.refCount < NEW_BUCKETS_PER_ADDRESS {
            PutIs(before, Slot(bucket, pos), index);
            m.mapInfo := m.mapInfo[index := e.(refCount := e.refCount + 1)];
            SetCell(m.vvNew, bucket, pos, index);
            assert m.Model() == PutSlot(before, Slot(bucket, pos), index);
            PutKeepsIndexed(before, Slot(bucket, pos), index);
            if good { PutKeepsLoaded(before, s, Slot(bucket, pos), index); }
          }
        }
      }
    }
  }

  lemma PutIs(t: State, sl: Slot, id: int)
    requires id in t.info
    ensures PutSlot(t, sl, id) == t.(newTab := t.newTab[sl := id],
                                     info := t.info[id := t.info[id].(refCount := t.info[id].refCount + 1)])
  {
  }

  lemma PutKeepsIndexed(t: State, sl: Slot, id: int)
    requires Indexed(t) && id in t.info
    ensures Indexed(PutSlot(t, sl, id))
  {
    SameIndex(t, PutSlot(t, sl, id));
  }

  method LoadBuckets(m: AddrMan, input: seq<Token>, c0: nat, nUBuckets: int, nNew: int, sameFormat: bool,
                     ghost s: State, ghost good: bool)
    returns (ok: bool)
    requires m.Shaped() && (sameFormat ==> nUBuckets == NEW_BUCKET_COUNT) && Indexed(m.Model())
    requires forall j :: 0 <= j < nNew ==> j in m.mapInfo
    requires good ==> Inv(s) && Known(s, Ids(s)) && sameFormat && nNew == s.nNew && Loaded(m.Model(), s, |Ids(s)|)
                      && HoldsRows(input, c0, s) && Listed(m.Model(), s, {})
    modifies m`mapInfo, m.vvNew
    ensures Indexed(m.Model()) && forall j :: j in m.mapInfo <==> j in old(m.mapInfo)
    ensures good ==> ok && Loaded(m.Model(), s, |Ids(s)|) && Listed(m.Model(), s, s.newTab.Keys)
  {
    hide Slots, Consistent, Ids, Loaded, Listed, Indexed, Inv, Seen, Row, Rank, Rows, HoldsRows;
    ok := true;
    var c: nat := c0;
    var last := if nUBuckets < 0 then 0 else nUBuckets;
    if good { IdsBounded(s); SeenAll(s); NoRows(s); }
    for bucket := 0 to last
      invariant ok && Indexed(m.Model()) && forall j :: j in m.mapInfo <==> j in old(m.mapInfo)
      invariant good ==> c == c0 + |Rows(s, bucket)|
      invariant good ==> Loaded(m.Model(), s, |Ids(s)|) && Listed(m.Model(), s, Seen(s, bucket, 0))
    {
      if good { RowAt(input, c0, s, bucket); SeenRow(s, bucket); }
      if c >= |input| || !input[c].Num? { return false; }
      var nSize := input[c].n;
      c := c + 1;
      ok, c := LoadRow(m, input, c, bucket, nSize, nNew, sameFormat, s, good);
      if !ok { return; }
    }
  }

  lemma NoRows(s: State)
    ensures |Rows(s, 0)| == 0
  {
  }

  /** A new entry that is in no slot. */
  predicate Stray(d: Info) { !d.inTried && d.refCount == 0 }

  /** Drop the new entries that ended up in no slot. */
  method Prune(m: AddrMan) returns (lost: nat)
    requires m.Shaped() && Indexed(m.Model())
    modifies m
    ensures m.Shaped() && Indexed(m.Model())
    ensures forall j :: j in m.mapInfo <==> j in old(m.mapInfo) && !Stray(old(m.mapInfo)[j])
    ensures forall j :: j in m.mapInfo ==> Moved(old(m.mapInfo)[j], m.mapInfo[j])
    ensures (forall j :: j in old(m.mapInfo) ==> !Stray(old(m.mapInfo)[j])) ==>
              m.Model() == old(m.Model()) && lost == 0
  {
    hide Slots, Indexed, M.Delete;
    var todo := m.mapInfo.Keys;
    lost := 0;
    ghost var s := m.Model();
    ghost var complete := forall j :: j in m.mapInfo ==> !Stray(m.mapInfo[j]);
    while todo != {}
      invariant m.Shaped() && Indexed(m.Model())
      invariant forall j :: j in m.mapInfo ==> j in s.info && Moved(s.info[j], m.mapInfo[j])
      invariant forall j :: j in s.info && j !in m.mapInfo ==> Stray(s.info[j])
      invariant forall j :: j in m.mapInfo && j !in todo ==> !Stray(s.info[j])
      invariant complete ==> m.Model() == s && lost == 0
    {
      assert (forall id :: id !in todo) ==> todo == {};
      var id :| id in todo;
      todo := todo - {id};
      if id in m.mapInfo && Stray(m.mapInfo[id]) {
        DeleteIndexed(m.Model(), id);
        DeleteKeeps(m.Model(), id);
        m.Delete(id);
        lost := lost + 1;
      }
    }
  }

  lemma DeleteIndexed(s: State, id: int)
    requires Indexed(s) && id in s.info
    ensures Indexed(M.Delete(s, id))
  {
    hide Indexed, M.SwapRandom, Pop, SameEntries;
    var i, j := s.info[id].randomPos, |s.random| - 1;
    IndexedAt(s, id);
    SwapRandomIndexed(s, i, j);
    SwappedLast(s, id);
    PopIndexed(M.SwapRandom(s, i, j), id);
  }

  // ----- clearing

  method ClearTable(a: array2<int>)
    modifies a
    ensures Slots(a) == map[]
  {
    for b := 0 to a.Length0
      invariant forall c, j :: 0 <= c < b && 0 <= j < a.Length1 ==> a[c, j] == -1
    {
      for i := 0 to a.Length1
        invariant forall c, j :: 0 <= c < b && 0 <= j < a.Length1 ==> a[c, j] == -1
        invariant forall j :: 0 <= j < i ==> a[b, j] == -1
      {
        a[b, i] := -1;
      }
    }
  }

  /** Everything but the remembered collisions starts afresh. */
  method Clear(m: AddrMan, key: nat)
    requires m.Shaped()
    modifies m, m.vvNew, m.vvTried
    ensures m.Shaped() && m.Model() == Empty(m.env, key).(collisions := old(m.triedCollisions))
  {
    m.vRandom := [];
    m.nKey := key;
    ClearTable(m.vvNew);
    ClearTable(m.vvTried);
    m.nIdCount, m.nTried, m.nNew, m.nLastGood := 0, 0, 0, 1;
    m.mapInfo, m.mapAddr := map[], map[];
  }

  /** A cleared manager satisfies the invariant exactly when it remembers no collision. */
  lemma ClearedInv(env: Env, key: nat, collisions: set<int>)
    ensures Inv(Empty(env, key).(collisions := collisions)) <==> collisions == {}
  {
    EmptyInv(env, key);
    var t := Empty(env, key).(collisions := collisions);
    assert forall c :: !CollisionOk(t, c);
    assert (forall c :: c !in collisions) ==> collisions == {};
    assert collisions == {} ==> t == Empty(env, key);
  }

  // ----- a collision that outlives clearing

  ghost predicate SlotFor(s: State, a: Address, source: nat) {
    s.env.routable(a.service.ip) && a.service.ip !in s.addr && NewSlot(s, a.service, source) !in s.newTab
  }

  /** An unknown address whose new slot is free gets the next id and that slot. */
  lemma AddsNew(s: State, a: Address, source: nat)
    requires Consistent(s, {}, 0) && SlotFor(s, a, source)
    ensures var t, id := M.Add(s, a, source, 0, 0, 0), s.idCount;
            && id in t.info && t.info[id].service == a.service && !t.info[id].inTried
            && t.idCount == id + 1 && t.addr == s.addr[a.service.ip := id]
            && t.newTab == s.newTab[NewSlot(s, a.service, source) := id]
            && t.triedTab == s.triedTab && t.env == s.env && t.key == s.key && t.collisions == s.collisions
  {
    hide Indexed, AllFiled, TablesOk, Counted;
    AdmitConsistent(s, a, source, 0);
  }

  /** The first address of a free tried slot takes it, and leaves its new slots. */
  lemma GoodMoves(s: State, svc: Service, time: int)
    requires Inv(s) && time > 0 && Knows(s, svc) && TriedSlot(s, svc) !in s.triedTab && !s.info[s.addr[svc.ip]].inTried
    ensures var t, id := M.Good(s, svc, true, time), s.addr[svc.ip];
            && t.triedTab == s.triedTab[TriedSlot(s, svc) := id] && t.newTab == s.newTab - SlotsOf(s.newTab, id)
            && t.addr == s.addr && t.env == s.env && t.key == s.key
            && t.collisions == s.collisions && t.idCount == s.idCount
  {
    hide Indexed, AllFiled, TablesOk, Counted;
    StampInv(s, s.addr[svc.ip], time);
  }

  /** Two addresses, new to the manager, that compete for one tried slot but not for a new one. */
  ghost predicate Rivals(env: Env, key: nat, a: Address, b: Address, source: nat) {
    var s := Empty(env, key);
    && env.routable(a.service.ip) && env.routable(b.service.ip) && a.service.ip != b.service.ip
    && TriedSlot(s, a.service) == TriedSlot(s, b.service)
    && NewSlot(s, a.service, source) != NewSlot(s, b.service, source)
  }

  ghost function WithRivals(env: Env, key: nat, a: Address, b: Address, source: nat, time: int): (s: State)
    requires time > 0
    ensures Inv(s)
  {
    EmptyInv(env, key);
    AddInv(Empty(env, key), a, source, 0, 0, 0);
    var s := M.Add(Empty(env, key), a, source, 0, 0, 0);
    GoodInv(s, a.service, true, time);
    var t := M.Good(s, a.service, true, time);
    AddInv(t, b, source, 0, 0, 0);
    var u := M.Add(t, b, source, 0, 0, 0);
    GoodInv(u, b.service, true, time);
    M.Good(u, b.service, true, time)
  }

  /** Both are added and then found good: the second is remembered as a collision. */
  lemma RivalsCollide(env: Env, key: nat, a: Address, b: Address, source: nat, time: int)
    requires time > 0 && Rivals(env, key, a, b, source)
    ensures WithRivals(env, key, a, b, source, time).collisions == {1}
  {
    hide Inv, Consistent, M.Add, M.Good;
    var o := Empty(env, key);
    EmptyInv(env, key);
    InvConsistent(o);
    AddsNew(o, a, source);
    AddInv(o, a, source, 0, 0, 0);
    var s := M.Add(o, a, source, 0, 0, 0);
    GoodMoves(s, a.service, time);
    GoodInv(s, a.service, true, time);
    var t := M.Good(s, a.service, true, time);
    var u0 := NewSlot(o, a.service, source);
    assert u0 in SlotsOf(s.newTab, 0);
    assert t.newTab == map[];
    InvConsistent(t);
    AddsNew(t, b, source);
    AddInv(t, b, source, 0, 0, 0);
    var u := M.Add(t, b, source, 0, 0, 0);
    GoodCollides(u, b.service, time);
  }

  lemma InvConsistent(s: State)
    requires Inv(s)
    ensures Consistent(s, {}, 0)
  {
  }

  lemma GoodCollides(s: State, svc: Service, time: int)
    requires Inv(s) && time > 0 && Knows(s, svc) && TriedSlot(s, svc) in s.triedTab && !s.info[s.addr[svc.ip]].inTried
    requires s.collisions == {}
    ensures M.Good(s, svc, true, time).collisions == {s.addr[svc.ip]}
  {
    hide Indexed, AllFiled, TablesOk, Counted, MakeTried;
  }

  /** Clearing keeps the collision, and adding the addresses again reissues its id: the collision is
      known and its tried slot is empty, so that selecting it looks up an id that does not exist. */
  lemma StaleCollision(env: Env, key: nat, newKey: nat, a: Address, b: Address, source: nat, time: int)
    requires time > 0 && Rivals(env, key, a, b, source)
    requires NewSlot(Empty(env, newKey), a.service, source) != NewSlot(Empty(env, newKey), b.service, source)
    ensures var cleared := Empty(env, newKey).(collisions := WithRivals(env, key, a, b, source, time).collisions);
            && Consistent(cleared, {}, 0)
            && var s := M.Add(cleared, a, source, 0, 0, 0);
            && Consistent(s, {}, 0)
            && var t := M.Add(s, b, source, 0, 0, 0);
            && 1 in t.collisions && 1 in t.info && TriedSlot(t, t.info[1].service) !in t.triedTab
  {
    hide Inv, Consistent, M.Add, WithRivals;
    RivalsCollide(env, key, a, b, source, time);
    var cleared := Empty(env, newKey).(collisions := WithRivals(env, key, a, b, source, time).collisions);
    ClearedConsistent(env, newKey, cleared.collisions);
    AddsNew(cleared, a, source);
    AddConsistent(cleared, a, source, 0, 0, 0);
    var s := M.Add(cleared, a, source, 0, 0, 0);
    AddsNew(s, b, source);
  }

  lemma ClearedConsistent(env: Env, key: nat, collisions: set<int>)
    ensures Consistent(Empty(env, key).(collisions := collisions), {}, 0)
  {
    var t := Empty(env, key).(collisions := collisions);
    assert NewIds(t) == {} && TriedIds(t) == {};
  }

  /** Such addresses exist: hashes that send everything to one tried slot, and addresses to buckets of their own. */
  lemma RivalsExist(key: nat, a: Address, b: Address)
    requires a.service.ip == 0 && b.service.ip == 1
    ensures Rivals(Env((_, _) => 0, (_, ip, _) => ip, (_, _, _, _) => 0, _ => true, _ => true), key, a, b, 0)
  {
  }

  // ----- the round trip

  /** Same tables, counters and entries, with id j in place of the j-th saved id. */
  ghost predicate SameUpToIds(t: State, s: State)
    requires 0 <= s.idCount && Known(s, Ids(s))
  {
    && t.env == s.env && t.key == s.key && t.nNew == s.nNew && t.nTried == s.nTried && t.idCount == |Ids(s)|
    && (forall j :: j in t.info <==> 0 <= j < |Ids(s)|)
    && (forall j :: 0 <= j < |Ids(s)| ==>
          Restored(t.info[j], s.info[Ids(s)[j]], j) && t.info[j].refCount == s.info[Ids(s)[j]].refCount)
    && (forall sl :: sl in t.newTab <==> sl in s.newTab)
    && (forall sl :: sl in s.newTab ==> ListedSlot(t, s, sl))
    && (forall sl :: sl in t.triedTab <==> sl in s.triedTab)
    && (forall sl :: sl in s.triedTab ==> 0 <= t.triedTab[sl] < |Ids(s)| && Ids(s)[t.triedTab[sl]] == s.triedTab[sl])
  }

  ghost predicate Reloaded(t: State, s: State)
    requires 0 <= s.idCount && Known(s, Ids(s))
  {
    && Loaded(t, s, |Ids(s)|) && Listed(t, s, s.newTab.Keys)
    && t.nNew == s.nNew && t.nTried == s.nTried && t.idCount == |Ids(s)| && t.collisions == {}
  }

  lemma ReloadedRefs(t: State, s: State)
    requires Inv(s) && Known(s, Ids(s)) && Reloaded(t, s)
    ensures forall j :: 0 <= j < |Ids(s)| ==> j in t.info && t.info[j].refCount == s.info[Ids(s)[j]].refCount
    ensures forall j :: j in t.info ==> t.info[j].inTried || t.info[j].refCount != 0
  {
    hide Ids, Consistent;
    IdsBounded(s);
    forall j | 0 <= j < |Ids(s)|
      ensures j in t.info && t.info[j].refCount == s.info[Ids(s)[j]].refCount
              && (t.info[j].inTried || t.info[j].refCount != 0)
    {
      assert LoadedEntry(t, s, s.info[Ids(s)[j]], j);
      ListedRefs(t, s, s.newTab.Keys, j);
      FiledAt(s, Ids(s)[j]);
    }
  }

  lemma ReloadedTried(t: State, s: State)
    requires Inv(s) && Known(s, Ids(s)) && Reloaded(t, s)
    ensures forall sl :: sl in t.triedTab <==> sl in s.triedTab
    ensures forall sl :: sl in s.triedTab ==>
              0 <= t.triedTab[sl] < |Ids(s)| && Ids(s)[t.triedTab[sl]] == s.triedTab[sl]
  {
    hide Ids, Consistent;
    IdsBounded(s);
    IdsComplete(s);
    forall sl | sl in t.triedTab ensures sl in s.triedTab && s.triedTab[sl] == Ids(s)[t.triedTab[sl]] {
      var d := Ids(s)[t.triedTab[sl]];
      assert HeldBy(s, d, sl);
      FiledAt(s, d);
    }
    forall sl | sl in s.triedTab ensures sl in t.triedTab {
      TriedFacts(s, sl, {}, 0);
      var d := s.triedTab[sl];
      assert d in Ids(s);
      var j :| 0 <= j < |Ids(s)| && Ids(s)[j] == d;
      assert LoadedEntry(t, s, s.info[d], j);
    }
  }

  lemma ReloadedSame(t: State, s: State)
    requires Inv(s) && Known(s, Ids(s)) && Reloaded(t, s)
    ensures SameUpToIds(t, s)
  {
    hide Ids, Inv, Restored;
    IdsBounded(s);
    ReloadedRefs(t, s);
    ReloadedTried(t, s);
    ReloadedEntries(t, s);
    ReloadedNew(t, s);
  }

  lemma ReloadedEntries(t: State, s: State)
    requires 0 <= s.idCount && Known(s, Ids(s)) && Reloaded(t, s)
    ensures t.env == s.env && t.key == s.key && forall j :: j in t.info <==> 0 <= j < |Ids(s)|
    ensures forall j :: 0 <= j < |Ids(s)| ==> Restored(t.info[j], s.info[Ids(s)[j]], j)
  {
    hide Ids, Restored, Listed;
    forall j | 0 <= j < |Ids(s)| ensures j in t.info && Restored(t.info[j], s.info[Ids(s)[j]], j) {
      assert LoadedEntry(t, s, s.info[Ids(s)[j]], j);
    }
  }

  lemma ReloadedNew(t: State, s: State)
    requires 0 <= s.idCount && Known(s, Ids(s)) && Reloaded(t, s)
    ensures forall sl :: sl in t.newTab <==> sl in s.newTab
    ensures forall sl :: sl in s.newTab ==> ListedSlot(t, s, sl)
  {
    hide Ids, Loaded, ListedSlot;
    assert forall sl :: ListedSlot(t, s, sl) ==> sl in t.newTab by { ListedIn(t, s); }
  }

  lemma ListedIn(t: State, s: State)
    requires 0 <= s.idCount
    ensures forall sl :: ListedSlot(t, s, sl) ==> sl in t.newTab
  {
    hide Ids;
  }

  // ----- what was loaded satisfies the invariant

  lemma {:induction false} IntRange(lo: int, hi: int, ids: set<int>)
    requires lo <= hi && forall j :: j in ids <==> lo <= j < hi
    ensures |ids| == hi - lo
    decreases hi - lo
  {
    if lo == hi {
      assert (forall j :: j !in ids) ==> ids == {};
    } else {
      IntRange(lo, hi - 1, ids - {hi - 1});
    }
  }

  lemma ReloadedFiled(t: State, s: State)
    requires Inv(s) && Known(s, Ids(s)) && Reloaded(t, s)
    ensures AllFiled(t, {})
  {
    hide Ids, Consistent;
    IdsBounded(s);
    forall j | j in t.info ensures Filed(t, j, {}) {
      assert LoadedEntry(t, s, s.info[Ids(s)[j]], j);
      ListedRefs(t, s, s.newTab.Keys, j);
      FiledAt(s, Ids(s)[j]);
    }
  }

  lemma ReloadedTables(t: State, s: State)
    requires Inv(s) && Known(s, Ids(s)) && Reloaded(t, s)
    ensures TablesOk(t)
  {
    hide Ids, Consistent;
    IdsBounded(s);
    forall a | a in t.addr ensures AddressOk(t, a) {
      var j := t.addr[a];
      assert LoadedEntry(t, s, s.info[Ids(s)[j]], j);
    }
    forall sl | sl in t.newTab ensures NewSlotOk(t, sl) {
      assert ListedSlot(t, s, sl);
      var j := t.newTab[sl];
      assert LoadedEntry(t, s, s.info[Ids(s)[j]], j);
      NewSlotAt(s, sl);
    }
    forall sl | sl in t.triedTab ensures TriedSlotOk(t, sl) {
      var j := t.triedTab[sl];
      assert HeldBy(s, Ids(s)[j], sl) && LoadedEntry(t, s, s.info[Ids(s)[j]], j);
    }
  }

  lemma NewSlotAt(s: State, sl: Slot)
    requires Inv(s) && sl in s.newTab
    ensures NewSlotOk(s, sl)
  {
  }

  lemma ReloadedCounted(t: State, s: State)
    requires Inv(s) && Known(s, Ids(s)) && Reloaded(t, s)
    ensures Counted(t, 0)
  {
    hide Ids, Inv;
    IdsBounded(s);
    IdsSplit(s);
    forall j ensures (j in NewIds(t) <==> 0 <= j < s.nNew) && (j in TriedIds(t) <==> s.nNew <= j < |Ids(s)|) {
      if 0 <= j < |Ids(s)| { assert LoadedEntry(t, s, s.info[Ids(s)[j]], j); }
    }
    IntRange(0, s.nNew, NewIds(t));
    IntRange(s.nNew, |Ids(s)|, TriedIds(t));
  }

  lemma ReloadedInv(t: State, s: State)
    requires Inv(s) && Known(s, Ids(s)) && Reloaded(t, s) && Indexed(t)
    ensures Inv(t)
  {
    hide Ids, Indexed, AllFiled, TablesOk, Counted;
    ReloadedFiled(t, s);
    ReloadedTables(t, s);
    ReloadedCounted(t, s);
  }

  // ----- the counts fit the tables

  lemma {:induction false} SlotsInRow(keys: set<Slot>, bucket: nat, width: nat)
    requires forall sl :: sl in keys ==> sl.bucket == bucket && sl.pos < width
    ensures |keys| <= width
  {
    if width > 0 {
      var last := Slot(bucket, width - 1);
      SlotsInRow(keys - {last}, bucket, width - 1);
      assert keys - {last} == keys || keys == (keys - {last}) + {last};
    } else {
      assert keys == {};
    }
  }

  lemma {:induction false} SlotsInTable(keys: set<Slot>, buckets: nat, width: nat)
    requires forall sl :: sl in keys ==> sl.bucket < buckets && sl.pos < width
    ensures |keys| <= buckets * width
  {
    if buckets == 0 {
      assert keys == {};
    } else {
      var row := set sl | sl in keys && sl.bucket == buckets - 1;
      SlotsInRow(row, buckets - 1, width);
      SlotsInTable(keys - row, buckets - 1, width);
      assert keys == (keys - row) + row;
      Arithmetic.MulAdd(buckets - 1, 1, width);
    }
  }

  /** There are no more holders than slots. */
  lemma {:induction false} HoldersFit(t: map<Slot, int>, ids: set<int>)
    requires forall id :: id in ids ==> exists sl :: sl in t && t[sl] == id
    ensures |ids| <= |t.Keys|
  {
    assert (forall id :: id !in ids) ==> ids == {};
    if ids != {} {
      var id :| id in ids;
      var sl :| sl in t && t[sl] == id;
      var rest := t - SlotsOf(t, id);
      forall d | d in ids - {id} ensures exists x :: x in rest && rest[x] == d {
        var x :| x in t && t[x] == d;
        assert x in rest;
      }
      HoldersFit(rest, ids - {id});
      assert rest.Keys <= t.Keys - {sl};
      SubsetSize(rest.Keys, t.Keys - {sl});
    }
  }

  lemma CountsFit(s: State)
    requires Inv(s)
    ensures s.nNew <= NEW_BUCKET_COUNT * BUCKET_SIZE && s.nTried <= TRIED_BUCKET_COUNT * BUCKET_SIZE
  {
    forall id | id in NewIds(s) ensures exists sl :: sl in s.newTab && s.newTab[sl] == id {
      assert Filed(s, id, {});
      var sl :| sl in SlotsOf(s.newTab, id);
    }
    forall id | id in TriedIds(s) ensures exists sl :: sl in s.triedTab && s.triedTab[sl] == id {
      assert Filed(s, id, {});
    }
    HoldersFit(s.newTab, NewIds(s));
    HoldersFit(s.triedTab, TriedIds(s));
    forall sl | sl in s.newTab.Keys ensures sl.bucket < NEW_BUCKET_COUNT && sl.pos < BUCKET_SIZE {
      assert NewSlotOk(s, sl);
    }
    forall sl | sl in s.triedTab.Keys ensures sl.bucket < TRIED_BUCKET_COUNT && sl.pos < BUCKET_SIZE {
      assert TriedSlotOk(s, sl);
    }
    SlotsInTable(s.newTab.Keys, NEW_BUCKET_COUNT, BUCKET_SIZE);
    SlotsInTable(s.triedTab.Keys, TRIED_BUCKET_COUNT, BUCKET_SIZE);
  }

  /** The parts of a saved stream, where loading looks for them. */
  lemma EncodeShape(s: State, input: seq<Token>)
    requires Inv(s) && input == Encode(s)
    ensures 0 <= s.idCount && Known(s, Ids(s)) && |input| >= 6
    ensures input[0] == Num(1) && input[1] == Num(32) && input[2] == Key(s.key)
    ensures input[3] == Num(s.nNew) && input[4] == Num(s.nTried) && input[5] == Num(Flip(NEW_BUCKET_COUNT))
    ensures HoldsRecords(input, 6, s) && HoldsRows(input, 6 + |Ids(s)|, s)
  {
    hide Ids, Consistent, Rows;
    IdsBounded(s);
    IdsSplit(s);
    var h, r, w := Header(s), Records(s, Ids(s)), Rows(s, NEW_BUCKET_COUNT);
    assert input == h + r + w;
    forall j | 0 <= j < |Ids(s)| ensures input[6 + j] == Entry(RecordOf(s.info[Ids(s)[j]])) {
      assert input[6 + j] == r[j];
    }
    assert input[6 + |r|..] == w;
  }

  /** The format: version 1, the length of the key and the key, the numbers of entries, the number of
      new buckets XOR 2^30, and then the entries, those of the new table first and each group by id. */
  lemma SavedFormat(s: State, i: nat, j: nat)
    requires Inv(s) && i < j < |s.info|
    ensures |Encode(s)| > 6 + |s.info| && 0 <= s.idCount && j < |Ids(s)| && Known(s, Ids(s))
    ensures Encode(s)[..6] == [Num(1), Num(32), Key(s.key), Num(s.nNew), Num(s.nTried), Num(0x4000_0400)]
    ensures var e := s.info[Ids(s)[i]];
            Encode(s)[6 + i] == Entry(Record(e.service, e.time, e.services, e.source, e.lastSuccess, e.attempts))
    ensures var (d, e) := (Ids(s)[i], Ids(s)[j]);
            if s.info[d].inTried == s.info[e].inTried then d < e else s.info[e].inTried
  {
    hide Rows, Inv, Ids;
    IdsBounded(s);
    IdsSplit(s);
    EntriesCounted(s);
    SomeRows(s);
    IdsOrdered(s, i, j);
  }

  lemma IdsOrdered(s: State, i: nat, j: nat)
    requires Inv(s) && 0 <= s.idCount && i < j < |Ids(s)| && Known(s, Ids(s))
    ensures var (d, e) := (Ids(s)[i], Ids(s)[j]);
            if s.info[d].inTried == s.info[e].inTried then d < e else s.info[e].inTried
  {
    hide IdsBelow, Inv;
    var a, b := IdsBelow(s, s.idCount, false), IdsBelow(s, s.idCount, true);
    IdsBelowContents(s, s.idCount, false);
    IdsBelowContents(s, s.idCount, true);
    if i < |a| { assert a[i] in a; } else { assert b[i - |a|] in b; }
    if j < |a| { assert a[j] in a; } else { assert b[j - |a|] in b; }
  }

  lemma EntriesCounted(s: State)
    requires Inv(s)
    ensures |s.info| == s.nNew + s.nTried
  {
    assert NewIds(s) + TriedIds(s) == s.info.Keys;
    assert NewIds(s) !! TriedIds(s);
  }

  lemma SomeRows(s: State)
    ensures |Rows(s, NEW_BUCKET_COUNT)| > 0
  {
    hide RowTokens;
    RowNotEmpty(s, NEW_BUCKET_COUNT - 1);
  }

  lemma RowNotEmpty(s: State, bucket: nat)
    ensures |RowTokens(s, bucket)| > 0
  {
  }

  lemma CountersAside(t: State, u: State)
    requires u == t.(idCount := u.idCount, nTried := u.nTried, nNew := u.nNew)
    ensures Indexed(t) ==> Indexed(u)
    ensures forall n :: Numbered(t, n) ==> Numbered(u, n)
  {
    hide Indexed;
    if Indexed(t) { SameIndex(t, u); }
  }

  lemma CountersAsideLoaded(t: State, u: State, s: State, m: nat)
    requires u == t.(idCount := u.idCount, nTried := u.nTried, nNew := u.nNew)
    requires 0 <= s.idCount && Known(s, Ids(s)) && m <= |Ids(s)| && Loaded(t, s, m)
    ensures Loaded(u, s, m)
  {
    hide Ids;
    forall j | 0 <= j < m ensures LoadedEntry(u, s, s.info[Ids(s)[j]], j) {
      assert LoadedEntry(t, s, s.info[Ids(s)[j]], j);
    }
  }

  lemma NothingListed(t: State, s: State)
    requires 0 <= s.idCount && t.newTab == map[] && forall j :: j in t.info ==> t.info[j].refCount == 0
    ensures Listed(t, s, {})
  {
    forall j ensures |SlotsOf(map[], j)| == 0 { assert SlotsOf(map[], j) == {}; }
  }

  /** Everything after the header. */
  method LoadBody(m: AddrMan, input: seq<Token>, nUBuckets: int, sameFormat: bool, ghost s: State, ghost good: bool)
    returns (ok: bool)
    requires m.Shaped() && m.mapInfo == map[] && m.mapAddr == map[] && m.vRandom == [] && |input| >= 6
    requires Slots(m.vvNew) == map[] && Slots(m.vvTried) == map[] && (sameFormat ==> nUBuckets == NEW_BUCKET_COUNT)
    requires good ==> Inv(s) && Known(s, Ids(s)) && s.env == m.env && s.key == m.nKey && s.nNew == m.nNew
                      && s.nTried == m.nTried && m.triedCollisions == {} && sameFormat
                      && HoldsRecords(input, 6, s) && HoldsRows(input, 6 + |Ids(s)|, s)
    modifies m, m.vvNew, m.vvTried
    ensures m.Shaped()
    ensures good ==> ok && SameUpToIds(m.Model(), s) && Inv(m.Model())
  {
    hide Slots, Inv, Ids, Loaded, Listed, SameUpToIds, HoldsRecords, HoldsRows, Indexed, Known;
    if good { IdsBounded(s); IdsSplit(s); }
    var c, lost;
    ok, c := LoadNew(m, input, 6, m.nNew, sameFormat, s, good);
    if !ok { return; }
    ghost var t := m.Model();
    m.nIdCount := m.nNew;
    CountersAside(t, m.Model());
    if good { CountersAsideLoaded(t, m.Model(), s, s.nNew); }
    ok, c, lost := LoadTried(m, input, c, m.nTried, 6, s, good);
    if !ok { return; }
    t := m.Model();
    m.nTried := m.nTried - lost;
    CountersAside(t, m.Model());
    if good { CountersAsideLoaded(t, m.Model(), s, |Ids(s)|); NothingListed(m.Model(), s); }
    ok := LoadBuckets(m, input, c, nUBuckets, m.nNew, sameFormat, s, good);
    if !ok { return; }
    if good { ReloadedRefs(m.Model(), s); ReloadedSame(m.Model(), s); ReloadedInv(m.Model(), s); }
    var lostNew := Prune(m);
  }

  /** Load a saved stream; `s` is the state it was saved from, if it was. */
  method Unserialize(m: AddrMan, input: seq<Token>, ghost s: State) returns (ok: bool)
    requires m.Shaped()
    modifies m, m.vvNew, m.vvTried
    ensures Inv(s) && s.env == m.env && old(m.triedCollisions) == {} && input == Encode(s) ==>
              ok && 0 <= s.idCount && Known(s, Ids(s)) && SameUpToIds(m.Model(), s) && m.Valid()
    ensures ok ==> |input| >= 6 && input[1] == Num(32) && input[3].Num? && input[3].n <= 65536
                   && input[4].Num? && input[4].n <= 16384
  {
    hide Slots, Inv, Ids, SameUpToIds, HoldsRecords, HoldsRows, Encode, Known;
    ghost var good := Inv(s) && s.env == m.env && m.triedCollisions == {} && input == Encode(s);
    if good { EncodeShape(s, input); CountsFit(s); }
    Clear(m, 0);
    if |input| < 6 || !input[0].Num? || !input[1].Num? || !input[2].Key? || !input[3].Num? || !input[4].Num?
       || !input[5].Num?
    {
      return false;
    }
    var nVersion := input[0].n;
    if input[1].n != 32 { return false; }
    m.nKey := input[2].key;
    m.nNew, m.nTried := input[3].n, input[4].n;
    var nUBuckets := input[5].n;
    if nVersion != 0 {
      nUBuckets := Flip(nUBuckets);
    }
    if m.nNew > NEW_BUCKET_COUNT * BUCKET_SIZE { return false; }
    if m.nTried > TRIED_BUCKET_COUNT * BUCKET_SIZE { return false; }
    ok := LoadBody(m, input, nUBuckets, nVersion == 1 && nUBuckets == NEW_BUCKET_COUNT, s, good);
  }
}
