/**
 The consistency check the program can be built with: `Check` reports no error
 exactly for the states described by `Checked`, and every state that satisfies
 the invariant is one of them.
 */
module AddrManCheck {
  import opened Sets
  import opened AddrManModel
  import opened AddrManager

  ghost predicate EntryChecked(s: State, n: int)
    requires n in s.info
  {
    var e := s.info[n];
    && (if e.inTried then e.lastSuccess != 0 && e.refCount == 0 else 1 <= e.refCount <= NEW_BUCKETS_PER_ADDRESS)
    && (if e.service.ip in s.addr then s.addr[e.service.ip] else 0) == n
    && 0 <= e.randomPos < |s.random| && s.random[e.randomPos] == n
    && e.lastTry >= 0 && e.lastSuccess >= 0
  }

  ghost predicate Checked(s: State) {
    && |s.random| == s.nTried + s.nNew
    && (forall n :: n in s.info ==> EntryChecked(s, n))
    && s.nTried == |TriedIds(s)| && s.nNew == |NewIds(s)|
    && (forall sl :: sl in s.triedTab ==> TriedSlotOk(s, sl))
    && (forall sl :: sl in s.newTab ==> NewSlotOk(s, sl))
    && (forall id :: id in TriedIds(s) ==> !Unlisted(s.triedTab, id))
    && (forall id :: id in NewIds(s) ==> |SlotsOf(s.newTab, id)| == s.info[id].refCount)
    && s.key != 0
  }

  lemma InvChecked(s: State)
    requires Inv(s) && s.key != 0
    ensures Checked(s)
  {
    assert s.info.Keys == NewIds(s) + TriedIds(s) by {
      forall d ensures d in s.info.Keys <==> d in NewIds(s) + TriedIds(s) {}
    }
    assert |s.info| == |s.info.Keys|;
    forall n | n in s.info ensures EntryChecked(s, n) { assert Filed(s, n, {}) && IndexedEntry(s, n); }
    forall id | id in TriedIds(s) ensures !Unlisted(s.triedTab, id) {
      assert Filed(s, id, {});
      assert TriedSlot(s, s.info[id].service) in s.triedTab;
    }
    forall id | id in NewIds(s) ensures |SlotsOf(s.newTab, id)| == s.info[id].refCount { assert Filed(s, id, {}); }
  }

  // ----- scanning a table slot by slot

  /** The occupied slots before position i of bucket n. */
  ghost function Before(t: map<Slot, int>, n: nat, i: nat): map<Slot, int> {
    map sl | sl in t && (sl.bucket < n || (sl.bucket == n && sl.pos < i)) :: t[sl]
  }

  lemma BeforeStep(a: array2<int>, n: nat, i: nat)
    requires n < a.Length0 && i < a.Length1
    ensures Slot(n, i) !in Before(Slots(a), n, i)
    ensures Before(Slots(a), n, i + 1) ==
            if a[n, i] == -1 then Before(Slots(a), n, i) else Before(Slots(a), n, i)[Slot(n, i) := a[n, i]]
  {
    SlotAt(a, n, i);
  }

  lemma BeforeRow(a: array2<int>, n: nat)
    ensures Before(Slots(a), n, a.Length1) == Before(Slots(a), n + 1, 0)
  {
  }

  lemma BeforeAll(a: array2<int>)
    ensures Before(Slots(a), 0, 0) == map[] && Before(Slots(a), a.Length0, 0) == Slots(a)
  {
  }

  lemma SlotsOfGrow(t: map<Slot, int>, sl: Slot, id: int)
    requires sl !in t
    ensures forall d :: d != id ==> SlotsOf(t[sl := id], d) == SlotsOf(t, d)
    ensures |SlotsOf(t[sl := id], id)| == |SlotsOf(t, id)| + 1
  {
    hide SlotsOf;
    forall d | d != id ensures SlotsOf(t[sl := id], d) == SlotsOf(t, d) { SlotsOfOther(t, sl, id, d); }
    SlotsOfOwn(t, sl, id);
  }

  lemma SlotsOfOther(t: map<Slot, int>, sl: Slot, id: int, d: int)
    requires sl !in t && d != id
    ensures SlotsOf(t[sl := id], d) == SlotsOf(t, d)
  {
  }

  lemma SlotsOfOwn(t: map<Slot, int>, sl: Slot, id: int)
    requires sl !in t
    ensures SlotsOf(t[sl := id], id) == SlotsOf(t, id) + {sl} && sl !in SlotsOf(t, id)
  {
  }

  // ----- the check itself

  method CheckEntries(m: AddrMan) returns (err: int, setTried: set<int>, mapNew: map<int, int>)
    ensures err == 0 <==> forall n :: n in m.mapInfo ==> EntryChecked(m.Model(), n)
    ensures err == 0 ==> setTried == TriedIds(m.Model())
    ensures err == 0 ==> mapNew == map id | id in NewIds(m.Model()) :: m.mapInfo[id].refCount
  {
    err, setTried, mapNew := 0, {}, map[];
    var todo := m.mapInfo.Keys;
    ghost var s := m.Model();
    while todo != {}
      invariant todo <= s.info.Keys
      invariant forall n :: n in s.info && n !in todo ==> EntryChecked(s, n)
      invariant setTried == TriedIds(s) - todo
      invariant mapNew == map id | id in NewIds(s) - todo :: s.info[id].refCount
    {
      SomeLeft(todo);
      var n :| n in todo;
      todo := todo - {n};
      var e := m.mapInfo[n];
      if e.inTried {
        if e.lastSuccess == 0 { err := -1; assert !EntryChecked(s, n); return; }
        if e.refCount != 0 { err := -2; assert !EntryChecked(s, n); return; }
        setTried := setTried + {n};
      } else {
        if e.refCount < 0 || e.refCount > NEW_BUCKETS_PER_ADDRESS { err := -3; assert !EntryChecked(s, n); return; }
        if e.refCount == 0 { err := -4; assert !EntryChecked(s, n); return; }
        mapNew := mapNew[n := e.refCount];
      }
      if (if e.service.ip in m.mapAddr then m.mapAddr[e.service.ip] else 0) != n {
        err := -5;
        assert !EntryChecked(s, n);
        return;
      }
      if e.randomPos < 0 || e.randomPos >= |m.vRandom| || m.vRandom[e.randomPos] != n {
        err := -14; assert !EntryChecked(s, n); return;
      }
      if e.lastTry < 0 { err := -6; assert !EntryChecked(s, n); return; }
      if e.lastSuccess < 0 { err := -8; assert !EntryChecked(s, n); return; }
    }
  }

  method CheckTried(m: AddrMan, ids: set<int>) returns (err: int, setTried: set<int>)
    requires m.Shaped() && ids == TriedIds(m.Model())
    ensures err == 0 <==> forall sl :: sl in m.Model().triedTab ==> TriedSlotOk(m.Model(), sl)
    ensures err == 0 ==> forall id :: id in setTried <==> id in ids && Unlisted(m.Model().triedTab, id)
  {
    hide Slots, Before, TriedScan;
    err, setTried := 0, ids;
    ghost var s := m.Model();
    BeforeAll(m.vvTried);
    TriedScanStart(s);
    for n := 0 to TRIED_BUCKET_COUNT
      invariant err == 0 && s == m.Model() && TriedScan(s, Before(s.triedTab, n, 0), setTried)
    {
      for i := 0 to BUCKET_SIZE
        invariant err == 0 && s == m.Model() && TriedScan(s, Before(s.triedTab, n, i), setTried)
      {
        BeforeStep(m.vvTried, n, i);
        SlotAt(m.vvTried, n, i);
        var id := m.vvTried[n, i];
        if id != -1 {
          ghost var sl := Slot(n, i);
          TriedOnce(s, Before(s.triedTab, n, i), setTried, sl);
          if id !in setTried { err := -11; assert !TriedSlotOk(s, sl); return; }
          if TriedBucket(m.env, m.nKey, m.mapInfo[id].service) != n { err := -17; assert !TriedSlotOk(s, sl); return; }
          if BucketPosition(m.env, m.nKey, false, n, m.mapInfo[id].service) != i {
            err := -18; assert !TriedSlotOk(s, sl); return;
          }
          assert TriedSlotOk(s, sl);
          TriedStep(s, Before(s.triedTab, n, i), setTried, sl);
          setTried := setTried - {id};
        }
      }
      BeforeRow(m.vvTried, n);
    }
    TriedScanEnd(s, setTried);
  }

  /** Every slot seen so far is sound, and `left` are the tried ids not seen yet. */
  ghost predicate TriedScan(s: State, seen: map<Slot, int>, left: set<int>) {
    && (forall sl :: sl in seen ==> sl in s.triedTab && s.triedTab[sl] == seen[sl] && TriedSlotOk(s, sl))
    && (forall id :: id in left <==> id in TriedIds(s) && Unlisted(seen, id))
  }

  ghost predicate Unlisted(t: map<Slot, int>, id: int) { forall sl :: sl in t ==> t[sl] != id }

  lemma TriedScanStart(s: State)
    ensures TriedScan(s, map[], TriedIds(s))
  {
  }

  lemma TriedScanEnd(s: State, left: set<int>)
    requires TriedScan(s, s.triedTab, left)
    ensures forall sl :: sl in s.triedTab ==> TriedSlotOk(s, sl)
    ensures forall id :: id in left <==> id in TriedIds(s) && Unlisted(s.triedTab, id)
  {
    forall id ensures id in left <==> id in TriedIds(s) && Unlisted(s.triedTab, id) {}
  }

  lemma TriedStep(s: State, seen: map<Slot, int>, left: set<int>, sl: Slot)
    requires TriedScan(s, seen, left) && sl in s.triedTab && TriedSlotOk(s, sl) && sl !in seen
    ensures TriedScan(s, seen[sl := s.triedTab[sl]], left - {s.triedTab[sl]})
  {
    var next, id := seen[sl := s.triedTab[sl]], s.triedTab[sl];
    forall d ensures d in left - {id} <==> d in TriedIds(s) && Unlisted(next, d) {
      if d in left - {id} {
        assert Unlisted(seen, d);
      } else if d in TriedIds(s) && d != id {
        var x :| x in seen && seen[x] == d;
        assert next[x] == d;
      } else if d == id {
        assert next[sl] == d;
      }
    }
  }

  lemma TriedOnce(s: State, seen: map<Slot, int>, left: set<int>, sl: Slot)
    requires TriedScan(s, seen, left) && sl in s.triedTab && sl !in seen
    ensures if s.triedTab[sl] in left then s.triedTab[sl] in TriedIds(s) else !TriedSlotOk(s, sl)
  {
    var id := s.triedTab[sl];
    assert id in left <==> id in TriedIds(s) && Unlisted(seen, id);
    if id !in left && id in TriedIds(s) {
      var other :| other in seen && seen[other] == id;
      assert TriedSlotOk(s, other);
    }
  }

  method CheckNew(m: AddrMan, refs: map<int, int>) returns (err: int, mapNew: map<int, int>)
    requires m.Shaped() && refs == map id | id in NewIds(m.Model()) :: m.mapInfo[id].refCount
    requires forall id :: id in refs ==> refs[id] >= 1
    ensures err == 0 <==> (forall sl :: sl in m.Model().newTab ==> NewSlotOk(m.Model(), sl))
                          && (forall id :: id in refs ==> |SlotsOf(m.Model().newTab, id)| <= refs[id])
    ensures err == 0 ==> forall id :: id in mapNew <==> id in refs && |SlotsOf(m.Model().newTab, id)| < refs[id]
  {
    hide Slots, SlotsOf, Before, NewScan;
    err, mapNew := 0, refs;
    ghost var s := m.Model();
    BeforeAll(m.vvNew);
    NewScanStart(s, refs);
    for n := 0 to NEW_BUCKET_COUNT
      invariant err == 0 && s == m.Model() && NewScan(s, Before(s.newTab, n, 0), refs, mapNew)
    {
      for i := 0 to BUCKET_SIZE
        invariant err == 0 && s == m.Model() && NewScan(s, Before(s.newTab, n, i), refs, mapNew)
      {
        BeforeStep(m.vvNew, n, i);
        SlotAt(m.vvNew, n, i);
        var id := m.vvNew[n, i];
        if id != -1 {
          ghost var sl := Slot(n, i);
          NewOverrun(s, n, i, refs, mapNew, id);
          if id !in mapNew { err := -12; return; }
          if BucketPosition(m.env, m.nKey, true, n, m.mapInfo[id].service) != i {
            err := -19; assert !NewSlotOk(s, sl); return;
          }
          NewStep(s, Before(s.newTab, n, i), refs, mapNew, sl);
          ghost var next := CountDown(mapNew, id);
          Recounted(mapNew, id);
          mapNew := mapNew[id := mapNew[id] - 1];
          if mapNew[id] == 0 {
            mapNew := mapNew - {id};
          }
          assert mapNew == next;
        }
      }
      BeforeRow(m.vvNew, n);
    }
    NewScanEnd(s, refs, mapNew);
  }

  /** Every slot seen so far is sound, and `left` counts the slots still to come. */
  ghost predicate NewScan(s: State, seen: map<Slot, int>, refs: map<int, int>, left: map<int, int>) {
    && (forall sl :: sl in seen ==> sl in s.newTab && NewSlotOk(s, sl))
    && (forall id :: id in refs ==> |SlotsOf(seen, id)| <= refs[id])
    && (forall id :: id in left <==> id in refs && |SlotsOf(seen, id)| < refs[id])
    && (forall id :: id in left ==> left[id] == refs[id] - |SlotsOf(seen, id)|)
  }

  lemma NewScanStart(s: State, refs: map<int, int>)
    requires forall id :: id in refs ==> refs[id] >= 1
    ensures NewScan(s, map[], refs, refs)
  {
    forall id ensures |SlotsOf(map[], id)| == 0 { assert SlotsOf(map[], id) == {}; }
  }

  lemma NewScanEnd(s: State, refs: map<int, int>, left: map<int, int>)
    requires NewScan(s, s.newTab, refs, left)
    ensures forall sl :: sl in s.newTab ==> NewSlotOk(s, sl)
    ensures forall id :: id in refs ==> |SlotsOf(s.newTab, id)| <= refs[id]
    ensures forall id :: id in left <==> id in refs && |SlotsOf(s.newTab, id)| < refs[id]
  {
  }

  function CountDown(left: map<int, int>, id: int): map<int, int>
    requires id in left
  {
    if left[id] - 1 == 0 then left - {id} else left[id := left[id] - 1]
  }

  lemma Recounted(left: map<int, int>, id: int)
    requires id in left
    ensures left[id := left[id] - 1] - {id} == left - {id}
  {
  }

  lemma NewStep(s: State, seen: map<Slot, int>, refs: map<int, int>, left: map<int, int>, sl: Slot)
    requires NewScan(s, seen, refs, left) && sl in s.newTab && sl !in seen
    requires s.newTab[sl] in left && NewSlotOk(s, sl)
    ensures NewScan(s, seen[sl := s.newTab[sl]], refs, CountDown(left, s.newTab[sl]))
  {
    hide SlotsOf;
    SlotsOfGrow(seen, sl, s.newTab[sl]);
  }

  /** A slot beyond an entry's reference count, or of no new entry, spoils the table. */
  lemma NewOverrun(s: State, n: nat, i: nat, refs: map<int, int>, left: map<int, int>, id: int)
    requires refs == map d | d in NewIds(s) :: s.info[d].refCount
    requires NewScan(s, Before(s.newTab, n, i), refs, left)
    requires Slot(n, i) in s.newTab && s.newTab[Slot(n, i)] == id
    ensures if id in left then id in NewIds(s)
            else !NewSlotOk(s, Slot(n, i)) || (id in refs && |SlotsOf(s.newTab, id)| > refs[id])
  {
    var sl := Slot(n, i);
    if id in refs && id !in left {
      SubsetSize(SlotsOf(Before(s.newTab, n, i), id) + {sl}, SlotsOf(s.newTab, id));
    }
  }

  method Check(m: AddrMan) returns (err: int)
    requires m.Shaped()
    ensures err == 0 <==> Checked(m.Model())
  {
    hide Slots, SlotsOf, EntryChecked, TriedSlotOk, NewSlotOk, Unlisted;
    ghost var s := m.Model();
    if |m.vRandom| != m.nTried + m.nNew { return -7; }
    var setTried, mapNew;
    err, setTried, mapNew := CheckEntries(m);
    if err != 0 { return; }
    ghost var refs := mapNew;
    RefsPositive(s);
    if |setTried| != m.nTried { return -9; }
    if |mapNew| != m.nNew { return -10; }
    err, setTried := CheckTried(m, setTried);
    if err != 0 { return; }
    err, mapNew := CheckNew(m, mapNew);
    if err != 0 { return; }
    if |setTried| != 0 { SomeLeft(setTried); return -13; }
    if |mapNew| != 0 { SomeLeft(mapNew.Keys); return -15; }
    if m.nKey == 0 { return -16; }
  }

  lemma SomeLeft(ids: set<int>)
    requires |ids| != 0
    ensures exists id :: id in ids
  {
    assert (forall id :: id !in ids) ==> ids == {};
  }

  lemma RefsPositive(s: State)
    requires forall n :: n in s.info ==> EntryChecked(s, n)
    ensures forall id :: id in NewIds(s) ==> s.info[id].refCount >= 1
    ensures |map id | id in NewIds(s) :: s.info[id].refCount| == |NewIds(s)|
  {
    forall id | id in NewIds(s) ensures s.info[id].refCount >= 1 { assert EntryChecked(s, id); }
    var m := map id | id in NewIds(s) :: s.info[id].refCount;
    assert m.Keys == NewIds(s);
  }
}
