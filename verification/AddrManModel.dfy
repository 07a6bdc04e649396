/**
 The address manager as a value: the state `CAddrMan` keeps, its operations as
 functions on that state, and the invariant that ties its six indexes together.
 A bucket table is the map of its occupied slots; a slot that is not a key is a
 slot holding -1.  Every random draw and every clock reading is a parameter.
 */
module AddrManModel {

  import opened Arithmetic
  import opened Options

  const TRIED_BUCKET_COUNT: nat := 256
  const NEW_BUCKET_COUNT: nat := 1024
  const BUCKET_SIZE: nat := 64
  const NEW_BUCKETS_PER_ADDRESS: nat := 8
  const HORIZON_DAYS: int := 30
  const RETRIES: int := 3
  const MAX_FAILURES: int := 10
  const MIN_FAIL_DAYS: int := 7
  const REPLACEMENT_HOURS: int := 4
  const GETADDR_MAX_PCT: nat := 23
  const GETADDR_MAX: nat := 2500
  const TRIED_COLLISION_SIZE: nat := 10
  const TEST_WINDOW: int := 40 * 60

  /** A network address is its number; a service adds the port. */
  datatype Service = Service(ip: nat, port: nat)
  datatype Address = Address(service: Service, time: int, services: set<nat>)
  datatype Slot = Slot(bucket: nat, pos: nat)

  datatype Info = Info(
    service: Service, time: int, services: set<nat>, source: nat,
    lastTry: int, lastCountAttempt: int, lastSuccess: int, attempts: int,
    refCount: int, inTried: bool, randomPos: int)

  /** The keyed hashes and the address predicates, left uninterpreted. */
  datatype Env = Env(
    triedHash: (nat, Service) -> nat,
    newHash: (nat, nat, nat) -> nat,
    posHash: (nat, bool, nat, Service) -> nat,
    routable: nat -> bool,
    valid: nat -> bool)

  datatype State = State(
    env: Env, key: nat, idCount: int,
    info: map<int, Info>, addr: map<nat, int>, random: seq<int>,
    nTried: int, triedTab: map<Slot, int>,
    nNew: int, newTab: map<Slot, int>,
    lastGood: int, collisions: set<int>)

  function Empty(env: Env, key: nat): State {
    State(env, key, 0, map[], map[], [], 0, map[], 0, map[], 1, {})
  }

  // ----- where an entry belongs

  function BucketPosition(env: Env, key: nat, isNew: bool, bucket: nat, svc: Service): nat {
    env.posHash(key, isNew, bucket, svc) % BUCKET_SIZE
  }

  function TriedBucket(env: Env, key: nat, svc: Service): nat { env.triedHash(key, svc) % TRIED_BUCKET_COUNT }

  function NewBucket(env: Env, key: nat, svc: Service, source: nat): nat {
    env.newHash(key, svc.ip, source) % NEW_BUCKET_COUNT
  }

  function NewPosition(s: State, svc: Service, bucket: nat): nat { BucketPosition(s.env, s.key, true, bucket, svc) }

  function TriedSlot(s: State, svc: Service): Slot {
    var b := TriedBucket(s.env, s.key, svc);
    Slot(b, BucketPosition(s.env, s.key, false, b, svc))
  }

  function NewSlot(s: State, svc: Service, source: nat): Slot {
    var b := NewBucket(s.env, s.key, svc, source);
    Slot(b, NewPosition(s, svc, b))
  }

  ghost predicate BelongsInNew(s: State, svc: Service, sl: Slot) {
    sl.bucket < NEW_BUCKET_COUNT && sl.pos == NewPosition(s, svc, sl.bucket)
  }

  function SlotsOf(table: map<Slot, int>, id: int): set<Slot> {
    set sl | sl in table && table[sl] == id
  }

  ghost function NewIds(s: State): set<int> { set id | id in s.info && !s.info[id].inTried }
  ghost function TriedIds(s: State): set<int> { set id | id in s.info && s.info[id].inTried }

  // ----- the invariant

  ghost predicate IndexedEntry(s: State, id: int)
    requires id in s.info
  {
    0 <= s.info[id].randomPos < |s.random| && s.random[s.info[id].randomPos] == id
  }

  ghost predicate IndexedPos(s: State, i: nat)
    requires i < |s.random|
  {
    s.random[i] in s.info && s.info[s.random[i]].randomPos == i
  }

  /** `random` lists every id once and each entry knows its position there. */
  ghost predicate Indexed(s: State) {
    && |s.random| == |s.info|
    && (forall id :: id in s.info ==> IndexedEntry(s, id))
    && (forall i :: 0 <= i < |s.random| ==> IndexedPos(s, i))
  }

  /** The entry is found by its network address, its times are sane, and its
      reference count is the number of new-table slots that hold it: none for a
      tried entry, which sits in its own tried slot, and one to eight for the
      others.  A `loose` entry may be in no slot yet. */
  ghost predicate Filed(s: State, id: int, loose: set<int>)
    requires id in s.info
  {
    var e := s.info[id];
    && 0 <= id < s.idCount
    && e.service.ip in s.addr && s.addr[e.service.ip] == id
    && 0 <= e.lastTry && 0 <= e.lastSuccess
    && e.refCount == |SlotsOf(s.newTab, id)| <= NEW_BUCKETS_PER_ADDRESS
    && (if e.inTried
        then e.refCount == 0 && e.lastSuccess != 0
             && TriedSlot(s, e.service) in s.triedTab && s.triedTab[TriedSlot(s, e.service)] == id
        else id in loose || 1 <= e.refCount)
  }

  ghost predicate AddressOk(s: State, a: nat)
    requires a in s.addr
  {
    s.addr[a] in s.info && s.info[s.addr[a]].service.ip == a
  }

  ghost predicate NewSlotOk(s: State, sl: Slot)
    requires sl in s.newTab
  {
    var id := s.newTab[sl];
    id in s.info && !s.info[id].inTried && BelongsInNew(s, s.info[id].service, sl)
  }

  ghost predicate TriedSlotOk(s: State, sl: Slot)
    requires sl in s.triedTab
  {
    var id := s.triedTab[sl];
    id in s.info && s.info[id].inTried && TriedSlot(s, s.info[id].service) == sl
  }

  ghost predicate AllFiled(s: State, loose: set<int>) {
    forall id :: id in s.info ==> Filed(s, id, loose)
  }

  ghost predicate TablesOk(s: State) {
    && (forall a :: a in s.addr ==> AddressOk(s, a))
    && (forall sl :: sl in s.newTab ==> NewSlotOk(s, sl))
    && (forall sl :: sl in s.triedTab ==> TriedSlotOk(s, sl))
  }

  /** `pending` new entries are in the map but not yet in the counter. */
  ghost predicate Counted(s: State, pending: int) {
    s.nNew + pending == |NewIds(s)| && s.nTried == |TriedIds(s)|
  }

  /** The indexes agree, with `loose` entries and `pending` counts in flight. */
  ghost predicate Consistent(s: State, loose: set<int>, pending: int) {
    && 0 <= s.idCount
    && Indexed(s)
    && AllFiled(s, loose)
    && TablesOk(s)
    && Counted(s, pending)
  }

  /** A remembered collision that is still known collides with an occupied tried slot. */
  ghost predicate CollisionOk(s: State, c: int) {
    0 <= c < s.idCount && (c in s.info ==> TriedSlot(s, s.info[c].service) in s.triedTab)
  }

  ghost predicate Inv(s: State) {
    Consistent(s, {}, 0) && forall c :: c in s.collisions ==> CollisionOk(s, c)
  }

  // ----- primitives

  function Create(s: State, a: Address, source: nat): State {
    var info := Info(a.service, a.time, a.services, source, 0, 0, 0, 0, 0, false, |s.random|);
    s.(idCount := s.idCount + 1, info := s.info[s.idCount := info], addr := s.addr[a.service.ip := s.idCount],
       random := s.random + [s.idCount])
  }

  function SwapRandom(s: State, i: nat, j: nat): State
    requires Indexed(s) && i < |s.random| && j < |s.random|
  {
    if i == j then s else
    assert IndexedPos(s, i) && IndexedPos(s, j);
    var a, b := s.random[i], s.random[j];
    s.(info := s.info[a := s.info[a].(randomPos := j)][b := s.info[b].(randomPos := i)],
       random := s.random[i := b][j := a])
  }

  function Delete(s: State, id: int): State
    requires Indexed(s) && id in s.info
  {
    assert IndexedEntry(s, id);
    var t := SwapRandom(s, s.info[id].randomPos, |s.random| - 1);
    SwapRandomIndexed(s, s.info[id].randomPos, |s.random| - 1);
    Pop(t, id)
  }

  function DropSlot(s: State, sl: Slot): State
    requires sl in s.newTab && s.newTab[sl] in s.info
  {
    var id := s.newTab[sl];
    s.(newTab := s.newTab - {sl}, info := s.info[id := s.info[id].(refCount := s.info[id].refCount - 1)])
  }

  function PutSlot(s: State, sl: Slot, id: int): State
    requires id in s.info
  {
    s.(newTab := s.newTab[sl := id], info := s.info[id := s.info[id].(refCount := s.info[id].refCount + 1)])
  }

  // ----- the order of `random` is invisible to everything else

  lemma SwapRandomIndexed(s: State, i: nat, j: nat)
    requires Indexed(s) && i < |s.random| && j < |s.random|
    ensures Indexed(SwapRandom(s, i, j)) && SameEntries(s, SwapRandom(s, i, j))
  {
    if i != j {
      var t := SwapRandom(s, i, j);
      var a, b := s.random[i], s.random[j];
      assert IndexedPos(s, i) && IndexedPos(s, j);
      assert t.info.Keys == s.info.Keys;
      forall id | id in t.info ensures IndexedEntry(t, id) {
        assert IndexedEntry(s, id);
      }
      forall k | 0 <= k < |t.random| ensures IndexedPos(t, k) {
        assert IndexedPos(s, k);
      }
    }
  }

  /** Same tables, counters and entries, up to `random` and the fields no table looks at. */
  ghost predicate SameEntries(s: State, t: State) {
    && t.env == s.env && t.key == s.key && t.idCount == s.idCount && t.addr == s.addr
    && t.nTried == s.nTried && t.triedTab == s.triedTab && t.nNew == s.nNew && t.newTab == s.newTab
    && (forall id :: id in s.info <==> id in t.info)
    && (forall id :: id in s.info ==> SameEntry(s.info[id], t.info[id]))
  }

  ghost predicate SameEntry(d: Info, e: Info) {
    && e.service == d.service && e.refCount == d.refCount && e.inTried == d.inTried
    && (0 <= d.lastTry ==> 0 <= e.lastTry) && (0 <= d.lastSuccess ==> 0 <= e.lastSuccess)
    && (d.lastSuccess > 0 ==> e.lastSuccess > 0)
  }

  /** How the counts move when only entry `id` changes sides, appears or goes. */
  lemma OthersCounted(s: State, t: State, id: int)
    requires forall d :: d != id ==> (d in s.info <==> d in t.info)
    requires forall d :: d != id && d in s.info && d in t.info ==> t.info[d].inTried == s.info[d].inTried
    ensures |NewIds(t)| - One(id in NewIds(t)) == |NewIds(s)| - One(id in NewIds(s))
    ensures |TriedIds(t)| - One(id in TriedIds(t)) == |TriedIds(s)| - One(id in TriedIds(s))
  {
    forall d ensures d in NewIds(t) - {id} <==> d in NewIds(s) - {id} {}
    forall d ensures d in TriedIds(t) - {id} <==> d in TriedIds(s) - {id} {}
    assert NewIds(t) - {id} == NewIds(s) - {id} && TriedIds(t) - {id} == TriedIds(s) - {id};
    Without(NewIds(s), id);
    Without(NewIds(t), id);
    Without(TriedIds(s), id);
    Without(TriedIds(t), id);
  }

  lemma Without(a: set<int>, id: int)
    ensures |a - {id}| == |a| - One(id in a)
  {
    if id !in a { assert a - {id} == a; }
  }

  function One(b: bool): int { if b then 1 else 0 }

  /** The tables stay sound when entries keep their identity and new slots are sound. */
  lemma SameTables(s: State, t: State)
    requires TablesOk(s) && t.env == s.env && t.key == s.key && t.addr == s.addr && t.triedTab == s.triedTab
    requires forall d :: d in s.info ==>
               d in t.info && t.info[d].service == s.info[d].service && t.info[d].inTried == s.info[d].inTried
    requires forall sl :: sl in t.newTab ==>
               (sl in s.newTab && t.newTab[sl] == s.newTab[sl]) || NewSlotOk(t, sl)
    ensures TablesOk(t)
  {
    forall a | a in t.addr ensures AddressOk(t, a) {
      assert AddressOk(s, a);
      var id := s.addr[a];
      assert id in t.info;
    }
    forall sl | sl in t.newTab ensures NewSlotOk(t, sl) {
      if sl in s.newTab && t.newTab[sl] == s.newTab[sl] {
        assert NewSlotOk(s, sl);
        var id := s.newTab[sl];
        assert id in t.info;
      }
    }
    forall sl | sl in t.triedTab ensures TriedSlotOk(t, sl) {
      assert TriedSlotOk(s, sl);
      var id := s.triedTab[sl];
      assert id in t.info;
    }
  }

  lemma TransferFiled(s: State, t: State, loose: set<int>)
    requires AllFiled(s, loose) && SameEntries(s, t)
    ensures AllFiled(t, loose)
  {
    forall id | id in t.info ensures Filed(t, id, loose) {
      assert Filed(s, id, loose) && SameEntry(s.info[id], t.info[id]);
    }
  }

  lemma TransferConsistent(s: State, t: State, loose: set<int>, pending: int)
    requires Consistent(s, loose, pending) && SameEntries(s, t) && Indexed(t)
    ensures Consistent(t, loose, pending)
  {
    OthersCounted(s, t, 0);
    SameTables(s, t);
    TransferFiled(s, t, loose);
  }

  lemma TransferInv(s: State, t: State)
    requires Inv(s) && SameEntries(s, t) && Indexed(t) && t.collisions == s.collisions
    ensures Inv(t)
  {
    TransferConsistent(s, t, {}, 0);
    forall c | c in t.collisions ensures CollisionOk(t, c) {
      assert CollisionOk(s, c) && (c in s.info ==> SameEntry(s.info[c], t.info[c]));
    }
  }

  // ----- Delete and ClearNew

  lemma NoSlots(table: map<Slot, int>, id: int)
    requires |SlotsOf(table, id)| == 0
    ensures forall sl :: sl in table ==> table[sl] != id
  {
    forall sl | sl in table ensures table[sl] != id {
      assert sl !in SlotsOf(table, id);
    }
  }

  /** What Delete does once the entry is last in `random`. */
  function Pop(s: State, id: int): State
    requires id in s.info && |s.random| > 0
  {
    s.(random := s.random[..|s.random| - 1], addr := s.addr - {s.info[id].service.ip},
       info := s.info - {id}, nNew := s.nNew - 1)
  }

  lemma PopTables(s: State, id: int, loose: set<int>)
    requires id in s.info && !s.info[id].inTried && s.info[id].refCount == 0 && |s.random| > 0
    requires TablesOk(s) && AllFiled(s, loose)
    ensures TablesOk(Pop(s, id)) && AllFiled(Pop(s, id), loose - {id})
  {
    var t := Pop(s, id);
    assert Filed(s, id, loose);
    NoSlots(s.newTab, id);
    forall a | a in t.addr ensures AddressOk(t, a) { assert AddressOk(s, a); }
    forall sl | sl in t.newTab ensures NewSlotOk(t, sl) { assert NewSlotOk(s, sl); }
    forall sl | sl in t.triedTab ensures TriedSlotOk(t, sl) { assert TriedSlotOk(s, sl); }
    forall d | d in t.info ensures Filed(t, d, loose - {id}) { assert Filed(s, d, loose); }
  }

  lemma PopIndexed(s: State, id: int)
    requires Indexed(s) && id in s.info && s.info[id].randomPos == |s.random| - 1
    ensures Indexed(Pop(s, id))
  {
    var t := Pop(s, id);
    assert IndexedEntry(s, id);
    assert t.info.Keys == s.info.Keys - {id};
    forall d | d in t.info ensures IndexedEntry(t, d) { assert IndexedEntry(s, d); }
    forall i | 0 <= i < |t.random| ensures IndexedPos(t, i) { assert IndexedPos(s, i); }
  }

  lemma PopConsistent(s: State, id: int, loose: set<int>, pending: int)
    requires Consistent(s, loose, pending) && id in s.info && !s.info[id].inTried && s.info[id].refCount == 0
    requires s.info[id].randomPos == |s.random| - 1
    ensures Consistent(Pop(s, id), loose - {id}, pending)
  {
    PopTables(s, id, loose);
    PopIndexed(s, id);
    OthersCounted(s, Pop(s, id), id);
  }

  lemma DeleteConsistent(s: State, id: int, loose: set<int>, pending: int)
    requires Consistent(s, loose, pending) && id in s.info && !s.info[id].inTried && s.info[id].refCount == 0
    ensures Consistent(Delete(s, id), loose - {id}, pending)
  {
    hide AllFiled, TablesOk, Counted, SwapRandom, Pop, SameEntries, Indexed;
    var i, j := s.info[id].randomPos, |s.random| - 1;
    IndexedAt(s, id);
    var t := SwapRandom(s, i, j);
    SwapRandomIndexed(s, i, j);
    TransferConsistent(s, t, loose, pending);
    SwappedLast(s, id);
    PopConsistent(t, id, loose, pending);
  }

  lemma IndexedAt(s: State, id: int)
    requires Indexed(s) && id in s.info
    ensures 0 <= s.info[id].randomPos < |s.random|
  {
    assert IndexedEntry(s, id);
  }

  lemma SwappedLast(s: State, id: int)
    requires Indexed(s) && id in s.info && 0 <= s.info[id].randomPos < |s.random|
    ensures var t := SwapRandom(s, s.info[id].randomPos, |s.random| - 1);
            && id in t.info && t.info[id] == s.info[id].(randomPos := |s.random| - 1) && |t.random| == |s.random|
  {
    assert IndexedEntry(s, id);
    assert IndexedPos(s, |s.random| - 1);
  }

  /** All entries but `id` are still there, unchanged but for their place in `random`. */
  ghost predicate KeepsOthers(s: State, t: State, id: int) {
    && (forall d :: d in s.info && d != id ==>
          d in t.info && Moved(s.info[d], t.info[d]))
    && (forall d :: d in t.info ==> d in s.info && SameIdentity(s.info[d], t.info[d]))
  }

  ghost predicate Moved(d: Info, e: Info) { e == d.(randomPos := e.randomPos) }

  ghost predicate SameIdentity(d: Info, e: Info) {
    && e.service == d.service && e.source == d.source && e.inTried == d.inTried
    && e.lastTry == d.lastTry && e.lastSuccess == d.lastSuccess
  }

  /** Neither the tried table nor anything else outside the entry indexes changed. */
  ghost predicate SameFrame(s: State, t: State) {
    t.env == s.env && t.key == s.key && t.idCount == s.idCount && t.collisions == s.collisions
    && t.nTried == s.nTried && t.triedTab == s.triedTab && t.lastGood == s.lastGood
  }

  lemma SwapRandomKeeps(s: State, i: nat, j: nat)
    requires Indexed(s) && i < |s.random| && j < |s.random|
    ensures var t := SwapRandom(s, i, j);
            && t == s.(info := t.info, random := t.random)
            && (forall d :: d in t.info <==> d in s.info)
            && (forall d :: d in s.info ==> Moved(s.info[d], t.info[d]))
  {
    var t := SwapRandom(s, i, j);
    assert IndexedPos(s, i) && IndexedPos(s, j);
    forall d | d in s.info ensures d in t.info && Moved(s.info[d], t.info[d]) {}
  }

  lemma DeleteKeeps(s: State, id: int)
    requires Indexed(s) && id in s.info
    ensures var t := Delete(s, id);
            KeepsOthers(s, t, id) && SameFrame(s, t) && t.newTab == s.newTab && id !in t.info
  {
    assert IndexedEntry(s, id);
    SwapRandomKeeps(s, s.info[id].randomPos, |s.random| - 1);
  }

  lemma Tighten(s: State, loose: set<int>, id: int, pending: int)
    requires Consistent(s, loose + {id}, pending)
    requires id in s.info ==> s.info[id].inTried || 1 <= s.info[id].refCount
    ensures Consistent(s, loose, pending)
  {
    forall d | d in s.info ensures Filed(s, d, loose) { assert Filed(s, d, loose + {id}); }
  }

  lemma DropSlotFiled(s: State, sl: Slot, loose: set<int>)
    requires AllFiled(s, loose) && sl in s.newTab && NewSlotOk(s, sl)
    ensures AllFiled(DropSlot(s, sl), loose + {s.newTab[sl]})
  {
    var id := s.newTab[sl];
    var t := DropSlot(s, sl);
    forall d | d in t.info ensures Filed(t, d, loose + {id}) {
      assert Filed(s, d, loose);
      if d == id {
        assert SlotsOf(t.newTab, d) == SlotsOf(s.newTab, d) - {sl};
        assert sl in SlotsOf(s.newTab, d);
      } else {
        assert SlotsOf(t.newTab, d) == SlotsOf(s.newTab, d);
      }
    }
  }

  lemma SameIndex(s: State, t: State)
    requires Indexed(s) && t.random == s.random
    requires forall id :: id in s.info <==> id in t.info
    requires forall id :: id in s.info ==> t.info[id].randomPos == s.info[id].randomPos
    ensures Indexed(t)
  {
    forall d ensures d in t.info.Keys <==> d in s.info.Keys {}
    assert t.info.Keys == s.info.Keys;
    forall d | d in t.info ensures IndexedEntry(t, d) { assert IndexedEntry(s, d); }
    forall i | 0 <= i < |t.random| ensures IndexedPos(t, i) {
      assert IndexedPos(s, i);
      var d := s.random[i];
      assert d in t.info;
    }
  }

  lemma DropSlotConsistent(s: State, sl: Slot, loose: set<int>, pending: int)
    requires Consistent(s, loose, pending) && sl in s.newTab
    ensures NewSlotOk(s, sl) && Consistent(DropSlot(s, sl), loose + {s.newTab[sl]}, pending)
  {
    hide AllFiled, Indexed;
    assert NewSlotOk(s, sl);
    DropSlotFiled(s, sl, loose);
    SameTables(s, DropSlot(s, sl));
    OthersCounted(s, DropSlot(s, sl), s.newTab[sl]);
    SameIndex(s, DropSlot(s, sl));
  }

  function ClearNew(s: State, sl: Slot): State
    requires Indexed(s) && TablesOk(s)
  {
    if sl !in s.newTab then s else
    assert NewSlotOk(s, sl);
    var id := s.newTab[sl];
    var t := DropSlot(s, sl);
    if t.info[id].refCount == 0 then SameIndex(s, t); Delete(t, id) else t
  }

  /** Clearing a slot drops at most the one entry that was in it. */
  lemma ClearNewKeeps(s: State, sl: Slot)
    requires Indexed(s) && TablesOk(s)
    ensures var t := ClearNew(s, sl);
            && SameFrame(s, t) && t.newTab == s.newTab - {sl}
            && if sl in s.newTab then KeepsOthers(s, t, s.newTab[sl]) else t == s
  {
    hide Delete, Indexed;
    if sl in s.newTab {
      assert NewSlotOk(s, sl);
      var id := s.newTab[sl];
      var t := DropSlot(s, sl);
      SameIndex(s, t);
      DeleteKeeps(t, id);
    }
  }

  lemma ClearNewConsistent(s: State, sl: Slot, loose: set<int>, pending: int)
    requires Consistent(s, loose, pending)
    requires sl in s.newTab ==> s.newTab[sl] !in loose
    ensures Consistent(ClearNew(s, sl), loose, pending)
  {
    hide Delete, Counted;
    if sl in s.newTab {
      var id := s.newTab[sl];
      var t := DropSlot(s, sl);
      DropSlotConsistent(s, sl, loose, pending);
      assert Filed(t, id, loose + {id});
      if t.info[id].refCount == 0 {
        assert ClearNew(s, sl) == Delete(t, id);
        assert loose + {id} - {id} == loose;
        DeleteConsistent(t, id, loose + {id}, pending);
      } else {
        assert ClearNew(s, sl) == t;
        Tighten(t, loose, id, pending);
      }
    }
  }

  // ----- Create and PutSlot

  lemma CreateIndexed(s: State, a: Address, source: nat)
    requires Indexed(s) && s.idCount !in s.info
    ensures Indexed(Create(s, a, source))
  {
    var t := Create(s, a, source);
    assert t.info.Keys == s.info.Keys + {s.idCount};
    forall d | d in t.info ensures IndexedEntry(t, d) { if d != s.idCount { assert IndexedEntry(s, d); } }
    forall i | 0 <= i < |t.random| ensures IndexedPos(t, i) { if i < |s.random| { assert IndexedPos(s, i); } }
  }

  lemma CreateConsistent(s: State, a: Address, source: nat, loose: set<int>, pending: int)
    requires Consistent(s, loose, pending) && a.service.ip !in s.addr
    ensures Consistent(Create(s, a, source), loose + {s.idCount}, pending + 1)
  {
    hide AllFiled, TablesOk, Indexed;
    IdsBelow(s, loose);
    CreateTables(s, a, source, loose);
    CreateIndexed(s, a, source);
    OthersCounted(s, Create(s, a, source), s.idCount);
  }

  lemma IdsBelow(s: State, loose: set<int>)
    requires AllFiled(s, loose)
    ensures s.idCount !in s.info && forall d :: d in s.info ==> d < s.idCount
  {
    forall d | d in s.info ensures d < s.idCount { assert Filed(s, d, loose); }
  }

  lemma CreateTables(s: State, a: Address, source: nat, loose: set<int>)
    requires TablesOk(s) && AllFiled(s, loose) && a.service.ip !in s.addr && s.idCount !in s.info && 0 <= s.idCount
    ensures var t := Create(s, a, source); TablesOk(t) && AllFiled(t, loose + {s.idCount})
  {
    var t := Create(s, a, source);
    var id := s.idCount;
    forall x | x in t.addr ensures AddressOk(t, x) { if x != a.service.ip { assert AddressOk(s, x); } }
    forall x | x in t.newTab ensures NewSlotOk(t, x) { assert NewSlotOk(s, x); }
    forall x | x in t.triedTab ensures TriedSlotOk(t, x) { assert TriedSlotOk(s, x); }
    forall d | d in t.info ensures Filed(t, d, loose + {id}) {
      if d == id {
        assert SlotsOf(t.newTab, id) == {} by {
          forall sl | sl in t.newTab ensures t.newTab[sl] != id { assert NewSlotOk(s, sl); }
        }
      } else {
        assert Filed(s, d, loose);
      }
    }
  }

  lemma PutSlotFiled(s: State, sl: Slot, id: int, loose: set<int>)
    requires AllFiled(s, loose) && id in s.info && !s.info[id].inTried
    requires s.info[id].refCount < NEW_BUCKETS_PER_ADDRESS && sl !in s.newTab
    ensures AllFiled(PutSlot(s, sl, id), loose - {id})
  {
    var t := PutSlot(s, sl, id);
    forall d | d in t.info ensures Filed(t, d, loose - {id}) {
      assert Filed(s, d, loose);
      if d == id {
        assert SlotsOf(t.newTab, d) == SlotsOf(s.newTab, d) + {sl};
      } else {
        assert SlotsOf(t.newTab, d) == SlotsOf(s.newTab, d);
      }
    }
  }

  lemma PutSlotConsistent(s: State, sl: Slot, id: int, loose: set<int>, pending: int)
    requires Consistent(s, loose, pending) && id in s.info && !s.info[id].inTried
    requires s.info[id].refCount < NEW_BUCKETS_PER_ADDRESS && sl !in s.newTab
    requires BelongsInNew(s, s.info[id].service, sl)
    ensures Consistent(PutSlot(s, sl, id), loose - {id}, pending)
  {
    hide AllFiled, Indexed, TablesOk;
    var t := PutSlot(s, sl, id);
    PutSlotFiled(s, sl, id, loose);
    PutSlotTables(s, sl, id);
    OthersCounted(s, t, id);
    SameIndex(s, t);
  }

  lemma PutSlotTables(s: State, sl: Slot, id: int)
    requires TablesOk(s) && id in s.info && !s.info[id].inTried && sl !in s.newTab
    requires BelongsInNew(s, s.info[id].service, sl)
    ensures TablesOk(PutSlot(s, sl, id))
  {
    hide TablesOk;
    SameTables(s, PutSlot(s, sl, id));
  }

  // ----- MakeTried, in the four steps the source takes

  /** Remove an entry from every new bucket. */
  function Unlist(s: State, id: int): State
    requires id in s.info
  {
    s.(newTab := s.newTab - SlotsOf(s.newTab, id), info := s.info[id := s.info[id].(refCount := 0)],
       nNew := s.nNew - 1)
  }

  /** Take the entry out of a tried slot. */
  function Demote(s: State, k: Slot): State
    requires k in s.triedTab && s.triedTab[k] in s.info
  {
    var id := s.triedTab[k];
    s.(triedTab := s.triedTab - {k}, nTried := s.nTried - 1, info := s.info[id := s.info[id].(inTried := false)])
  }

  /** Enter a demoted entry into the new table again. */
  function Readmit(s: State, u: Slot, id: int): State
    requires id in s.info
  {
    s.(newTab := s.newTab[u := id], nNew := s.nNew + 1, info := s.info[id := s.info[id].(refCount := 1)])
  }

  function Promote(s: State, k: Slot, id: int): State
    requires id in s.info
  {
    s.(triedTab := s.triedTab[k := id], nTried := s.nTried + 1, info := s.info[id := s.info[id].(inTried := true)])
  }

  lemma UnlistFiled(s: State, id: int, loose: set<int>)
    requires AllFiled(s, loose) && id in s.info && !s.info[id].inTried
    ensures AllFiled(Unlist(s, id), loose + {id})
  {
    var t := Unlist(s, id);
    forall d | d in t.info ensures Filed(t, d, loose + {id}) {
      assert Filed(s, d, loose);
      if d == id {
        assert SlotsOf(t.newTab, d) == {};
      } else {
        assert SlotsOf(t.newTab, d) == SlotsOf(s.newTab, d);
      }
    }
  }

  lemma UnlistConsistent(s: State, id: int, loose: set<int>, pending: int)
    requires Consistent(s, loose, pending) && id in s.info && !s.info[id].inTried
    ensures Consistent(Unlist(s, id), loose + {id}, pending + 1)
    ensures forall sl :: sl in Unlist(s, id).newTab ==> Unlist(s, id).newTab[sl] != id
  {
    var t := Unlist(s, id);
    UnlistFiled(s, id, loose);
    SameTables(s, t);
    OthersCounted(s, t, id);
    SameIndex(s, t);
  }

  lemma DemoteTables(s: State, k: Slot, loose: set<int>)
    requires TablesOk(s) && AllFiled(s, loose) && k in s.triedTab && TriedSlotOk(s, k)
    ensures TablesOk(Demote(s, k)) && AllFiled(Demote(s, k), loose + {s.triedTab[k]})
  {
    var t := Demote(s, k);
    var id := s.triedTab[k];
    assert Filed(s, id, loose);
    NoSlots(s.newTab, id);
    forall x | x in t.addr ensures AddressOk(t, x) { assert AddressOk(s, x); }
    forall x | x in t.newTab ensures NewSlotOk(t, x) { assert NewSlotOk(s, x); }
    forall x | x in t.triedTab ensures TriedSlotOk(t, x) {
      assert TriedSlotOk(s, x);
      assert s.triedTab[x] != id;
    }
    forall d | d in t.info ensures Filed(t, d, loose + {id}) { assert Filed(s, d, loose); }
  }

  lemma DemoteConsistent(s: State, k: Slot, loose: set<int>, pending: int)
    requires Consistent(s, loose, pending) && k in s.triedTab
    ensures TriedSlotOk(s, k) && Consistent(Demote(s, k), loose + {s.triedTab[k]}, pending + 1)
  {
    assert TriedSlotOk(s, k);
    var t := Demote(s, k);
    var id := s.triedTab[k];
    DemoteTables(s, k, loose);
    OthersCounted(s, t, id);
    SameIndex(s, t);
  }

  lemma PromoteTables(s: State, k: Slot, id: int, loose: set<int>)
    requires TablesOk(s) && AllFiled(s, loose) && id in s.info && !s.info[id].inTried && s.info[id].refCount == 0
    requires s.info[id].lastSuccess > 0 && k == TriedSlot(s, s.info[id].service) && k !in s.triedTab
    ensures TablesOk(Promote(s, k, id)) && AllFiled(Promote(s, k, id), loose - {id})
  {
    var t := Promote(s, k, id);
    assert Filed(s, id, loose);
    NoSlots(s.newTab, id);
    forall x | x in t.addr ensures AddressOk(t, x) { assert AddressOk(s, x); }
    forall x | x in t.newTab ensures NewSlotOk(t, x) { assert NewSlotOk(s, x); }
    forall x | x in t.triedTab ensures TriedSlotOk(t, x) { if x != k { assert TriedSlotOk(s, x); } }
    forall d | d in t.info ensures Filed(t, d, loose - {id}) { assert Filed(s, d, loose); }
  }

  lemma PromoteConsistent(s: State, k: Slot, id: int, loose: set<int>, pending: int)
    requires Consistent(s, loose, pending) && id in s.info && !s.info[id].inTried && s.info[id].refCount == 0
    requires s.info[id].lastSuccess > 0 && k == TriedSlot(s, s.info[id].service) && k !in s.triedTab
    ensures Consistent(Promote(s, k, id), loose - {id}, pending - 1)
  {
    var t := Promote(s, k, id);
    PromoteTables(s, k, id, loose);
    OthersCounted(s, t, id);
    SameIndex(s, t);
  }

  lemma TriedFacts(s: State, k: Slot, loose: set<int>, pending: int)
    requires Consistent(s, loose, pending) && k in s.triedTab
    ensures TriedSlotOk(s, k) && Filed(s, s.triedTab[k], loose)
  {
    assert TriedSlotOk(s, k);
    var id := s.triedTab[k];
    assert Filed(s, id, loose);
  }

  lemma NewFacts(s: State, id: int, loose: set<int>, pending: int)
    requires Consistent(s, loose, pending) && id in s.info && s.info[id].refCount == 0
    ensures forall sl :: sl in s.newTab ==> s.newTab[sl] != id
  {
    assert Filed(s, id, loose);
    NoSlots(s.newTab, id);
  }

  /** An entry on its way into the tried table: unlisted, and not counted as new. */
  ghost predicate InTransit(s: State, id: int) {
    Consistent(s, {id}, 1) && id in s.info && !s.info[id].inTried && s.info[id].refCount == 0
  }

  /** Making room in the new table for the entry in tried slot `k` spares it and `id`. */
  lemma EvictClears(s: State, k: Slot, id: int, u: Slot)
    requires InTransit(s, id) && k in s.triedTab
    ensures TriedSlotOk(s, k)
    ensures var t := Demote(s, k); var e := s.triedTab[k];
            && Indexed(t) && TablesOk(t)
            && var c := ClearNew(t, u);
            && Consistent(c, {id} + {e}, 2) && SameFrame(t, c) && u !in c.newTab
            && id in c.info && Moved(t.info[id], c.info[id])
            && e in c.info && Moved(t.info[e], c.info[e])
            && (forall d :: d in c.info ==> d in s.info && c.info[d].service == s.info[d].service)
  {
    hide ClearNew, AllFiled, Counted;
    DemoteConsistent(s, k, {id}, 1);
    TriedFacts(s, k, {id}, 1);
    var t := Demote(s, k);
    var e := s.triedTab[k];
    NewFacts(t, id, {id} + {e}, 2);
    NewFacts(t, e, {id} + {e}, 2);
    ClearNewConsistent(t, u, {id} + {e}, 2);
    ClearNewKeeps(t, u);
  }

  /** Move the entry in tried slot `k` back to the new table, dropping what is in its way there. */
  function Evict(s: State, k: Slot, id: int): State
    requires InTransit(s, id) && k in s.triedTab
  {
    assert TriedSlotOk(s, k);
    var e := s.triedTab[k];
    var t := Demote(s, k);
    var u := NewSlot(t, t.info[e].service, t.info[e].source);
    EvictClears(s, k, id, u);
    Readmit(ClearNew(t, u), u, e)
  }

  /** The entry was tried and now has one slot in the new table. */
  ghost predicate Demoted(s: State, t: State, id: int) {
    id in s.info && s.info[id].inTried && id in t.info && !t.info[id].inTried && t.info[id].refCount == 1
    && t.info[id].service == s.info[id].service
  }

  lemma EvictConsistent(s: State, k: Slot, id: int)
    requires InTransit(s, id) && k in s.triedTab
    ensures var t := Evict(s, k, id);
            && InTransit(t, id) && t.triedTab == s.triedTab - {k}
            && Moved(s.info[id], t.info[id]) && Demoted(s, t, s.triedTab[k])
            && (forall d :: d in t.info ==> d in s.info && t.info[d].service == s.info[d].service)
            && t == s.(info := t.info, addr := t.addr, random := t.random, nTried := t.nTried,
                       triedTab := t.triedTab, nNew := t.nNew, newTab := t.newTab)
  {
    hide ClearNew, Indexed, AllFiled, TablesOk, Counted;
    TriedFacts(s, k, {id}, 1);
    var e := s.triedTab[k];
    var d := Demote(s, k);
    var u := NewSlot(d, d.info[e].service, d.info[e].source);
    EvictClears(s, k, id, u);
    var c := ClearNew(d, u);
    ReadmitIsPut(c, u, e);
    PutSlotConsistent(c, u, e, {id} + {e}, 2);
    var p := PutSlot(c, u, e);
    assert {id} + {e} - {e} == {id};
    Recount(p, {id}, 2, 1);
  }

  lemma ReadmitIsPut(s: State, u: Slot, id: int)
    requires id in s.info && s.info[id].refCount == 0
    ensures Readmit(s, u, id) == PutSlot(s, u, id).(nNew := s.nNew + 1)
  {
  }

  lemma Recount(s: State, loose: set<int>, pending: int, more: int)
    requires Consistent(s, loose, pending)
    ensures Consistent(s.(nNew := s.nNew + more), loose, pending - more)
  {
    var t := s.(nNew := s.nNew + more);
    OthersCounted(s, t, 0);
    SameIndex(s, t);
    SameTables(s, t);
    forall d | d in t.info ensures Filed(t, d, loose) { assert Filed(s, d, loose); }
  }

  /** Move an entry from the new table to the tried table. */
  function MakeTried(s: State, id: int): State
    requires Consistent(s, {}, 0) && id in s.info && !s.info[id].inTried
  {
    UnlistConsistent(s, id, {}, 0);
    assert {} + {id} == {id};
    var t := Unlist(s, id);
    var k := TriedSlot(s, s.info[id].service);
    if k in t.triedTab then EvictConsistent(t, k, id); Promote(Evict(t, k, id), k, id) else Promote(t, k, id)
  }

  lemma MakeTriedConsistent(s: State, id: int)
    requires Consistent(s, {}, 0) && id in s.info && !s.info[id].inTried && s.info[id].lastSuccess > 0
    ensures Consistent(MakeTried(s, id), {}, 0) && Extends(s, MakeTried(s, id))
    ensures MakeTried(s, id).collisions == s.collisions
    ensures id in MakeTried(s, id).info && MakeTried(s, id).info[id].inTried
    ensures var k := TriedSlot(s, s.info[id].service);
            k in s.triedTab ==> Demoted(s, MakeTried(s, id), s.triedTab[k])
  {
    hide Evict, Indexed, AllFiled, TablesOk, Counted;
    UnlistConsistent(s, id, {}, 0);
    assert {} + {id} == {id} && {id} - {id} == {};
    var t := Unlist(s, id);
    var k := TriedSlot(s, s.info[id].service);
    if k in t.triedTab {
      EvictConsistent(t, k, id);
      PromoteConsistent(Evict(t, k, id), k, id, {id}, 1);
    } else {
      PromoteConsistent(t, k, id, {id}, 1);
    }
  }

  /** No tried slot is vacated, no entry changes its address, ids are never reused. */
  ghost predicate Extends(s: State, t: State) {
    && t.env == s.env && t.key == s.key && s.idCount <= t.idCount
    && (forall sl :: sl in s.triedTab ==> sl in t.triedTab)
    && (forall d :: d in t.info && d < s.idCount ==> d in s.info && t.info[d].service == s.info[d].service)
  }

  lemma ExtendsInv(s: State, t: State)
    requires Inv(s) && Extends(s, t) && Consistent(t, {}, 0) && t.collisions <= s.collisions
    ensures Inv(t)
  {
    forall c | c in t.collisions ensures CollisionOk(t, c) { assert CollisionOk(s, c); }
  }

  // ----- operations

  function IsTerrible(e: Info, now: int): bool {
    if e.lastTry != 0 && e.lastTry >= now - 60 then false
    else
      || e.time > now + 10 * 60
      || e.time == 0 || now - e.time > HORIZON_DAYS * 24 * 60 * 60
      || (e.lastSuccess == 0 && e.attempts >= RETRIES)
      || (now - e.lastSuccess > MIN_FAIL_DAYS * 24 * 60 * 60 && e.attempts >= MAX_FAILURES)
  }

  /** The id of an entry with exactly this address and port. */
  predicate Knows(s: State, svc: Service) {
    svc.ip in s.addr && s.addr[svc.ip] in s.info && s.info[s.addr[svc.ip]].service == svc
  }

  function Edit(s: State, id: int, e: Info): State { s.(info := s.info[id := e]) }

  function Attempt(s: State, svc: Service, countFailure: bool, time: int): State {
    if !Knows(s, svc) then s else
    var id := s.addr[svc.ip];
    var e := s.info[id].(lastTry := time);
    Edit(s, id, if countFailure && e.lastCountAttempt < s.lastGood
                then e.(lastCountAttempt := time, attempts := e.attempts + 1) else e)
  }

  function Connected(s: State, svc: Service, time: int): State {
    if !Knows(s, svc) then s else
    var id := s.addr[svc.ip];
    if time - s.info[id].time > 20 * 60 then Edit(s, id, s.info[id].(time := time)) else s
  }

  function SetServices(s: State, svc: Service, services: set<nat>): State {
    if !Knows(s, svc) then s else
    var id := s.addr[svc.ip];
    Edit(s, id, s.info[id].(services := services))
  }

  lemma EditConsistent(s: State, id: int, e: Info, loose: set<int>, pending: int)
    requires Consistent(s, loose, pending) && id in s.info && SameEntry(s.info[id], e)
    requires e.randomPos == s.info[id].randomPos
    ensures Consistent(Edit(s, id, e), loose, pending)
    ensures Inv(s) ==> Inv(Edit(s, id, e))
  {
    hide AllFiled, TablesOk, Counted;
    var t := Edit(s, id, e);
    SameIndex(s, t);
    assert SameEntries(s, t);
    TransferConsistent(s, t, loose, pending);
    if Inv(s) { TransferInv(s, t); }
  }

  // ----- Good

  /** Record a successful connection to entry `id`. */
  function Stamp(s: State, id: int, time: int): State
    requires id in s.info
  {
    Edit(s, id, s.info[id].(lastSuccess := time, lastTry := time, attempts := 0)).(lastGood := time)
  }

  lemma StampInv(s: State, id: int, time: int)
    requires Inv(s) && id in s.info && time > 0
    ensures Inv(Stamp(s, id, time)) && Extends(s, Stamp(s, id, time))
  {
    hide AllFiled, TablesOk, Counted;
    var t := Stamp(s, id, time);
    SameIndex(s, t);
    assert SameEntries(s, t);
    TransferInv(s, t);
  }

  function Good(s: State, svc: Service, testBeforeEvict: bool, time: int): State
    requires Inv(s) && time > 0
  {
    if !Knows(s, svc) then s.(lastGood := time) else
    var id := s.addr[svc.ip];
    StampInv(s, id, time);
    var t := Stamp(s, id, time);
    if t.info[id].inTried then t
    else if testBeforeEvict && TriedSlot(t, svc) in t.triedTab then
      if |t.collisions| < TRIED_COLLISION_SIZE then t.(collisions := t.collisions + {id}) else t
    else MakeTried(t, id)
  }

  lemma GoodInv(s: State, svc: Service, testBeforeEvict: bool, time: int)
    requires Inv(s) && time > 0
    ensures Inv(Good(s, svc, testBeforeEvict, time))
    ensures !testBeforeEvict ==> Good(s, svc, testBeforeEvict, time).collisions == s.collisions
    ensures Extends(s, Good(s, svc, testBeforeEvict, time))
    ensures Knows(s, svc) && !testBeforeEvict ==>
              var t, id := Good(s, svc, testBeforeEvict, time), s.addr[svc.ip];
              id in t.info && t.info[id].inTried
  {
    hide Indexed, AllFiled, TablesOk, Counted, MakeTried;
    if Knows(s, svc) {
      var id := s.addr[svc.ip];
      StampInv(s, id, time);
      var t := Stamp(s, id, time);
      if t.info[id].inTried {
      } else if testBeforeEvict && TriedSlot(t, svc) in t.triedTab {
        NoteCollision(t, id);
      } else {
        MakeTriedConsistent(t, id);
        ExtendsInv(t, MakeTried(t, id));
      }
    } else {
      Reclock(s, time);
    }
  }

  lemma Reclock(s: State, time: int)
    requires Inv(s)
    ensures Inv(s.(lastGood := time))
  {
    hide AllFiled, TablesOk, Counted;
    var t := s.(lastGood := time);
    SameIndex(s, t);
    assert SameEntries(s, t);
    TransferInv(s, t);
  }

  lemma NoteCollision(s: State, id: int)
    requires Inv(s) && id in s.info && TriedSlot(s, s.info[id].service) in s.triedTab
    ensures Inv(s.(collisions := s.collisions + {id}))
  {
    var t := s.(collisions := s.collisions + {id});
    hide TablesOk, Counted;
    assert Filed(s, id, {});
    SameIndex(s, t);
    TransferConsistent(s, t, {}, 0);
    forall c | c in t.collisions ensures CollisionOk(t, c) { if c != id { assert CollisionOk(s, c); } }
  }

  // ----- Add

  /** What a repeated announcement changes in a known entry. */
  function Refresh(e: Info, a: Address, penalty: int, now: int): Info {
    var interval := if now - a.time < 24 * 60 * 60 then 60 * 60 else 24 * 60 * 60;
    var time := if a.time != 0 && (e.time == 0 || e.time < a.time - interval - penalty)
                then Max(0, a.time - penalty) else e.time;
    e.(time := time, services := e.services + a.services)
  }

  function Max(x: int, y: int): int { if x < y then y else x }

  /** Whether a refreshed entry gets another slot: new information, not tried,
      fewer than eight slots, and each slot it has halves the chance. */
  predicate WantsSlot(e: Info, a: Address, draw: nat)
    requires 0 <= e.refCount
  {
    && a.time != 0 && (e.time == 0 || a.time > e.time)
    && !e.inTried && e.refCount != NEW_BUCKETS_PER_ADDRESS
    && (e.refCount == 0 || draw % Pow2(e.refCount) == 0)
  }

  /** Put an entry in the slot its source gives it, if that slot can be had. */
  function Place(s: State, id: int, source: nat, now: int): State
    requires Consistent(s, {id}, 0) && id in s.info
  {
    var u := NewSlot(s, s.info[id].service, source);
    if u in s.newTab && s.newTab[u] == id then s
    else
      assert u in s.newTab ==> NewSlotOk(s, u);
      if u !in s.newTab || IsTerrible(s.info[s.newTab[u]], now)
         || (s.info[s.newTab[u]].refCount > 1 && s.info[id].refCount == 0)
      then ClearNewKeeps(s, u); PutSlot(ClearNew(s, u), u, id)
      else if s.info[id].refCount == 0 then Delete(s, id) else s
  }

  function Add(s: State, a: Address, source: nat, penalty: int, now: int, draw: nat): State
    requires Consistent(s, {}, 0)
  {
    if !s.env.routable(a.service.ip) then s else
    var pen := if a.service.ip == source then 0 else penalty;
    if a.service.ip in s.addr then
      assert AddressOk(s, a.service.ip);
      var id := s.addr[a.service.ip];
      var t := Edit(s, id, Refresh(s.info[id], a, pen, now));
      RefreshConsistent(s, id, a, pen, now);
      if WantsSlot(t.info[id], a, draw) then Place(t, id, source, now) else t
    else
      AdmitConsistent(s, a, source, pen);
      Place(Admit(s, a, source, pen), s.idCount, source, now)
  }

  /** A new entry, counted but in no slot yet. */
  function Admit(s: State, a: Address, source: nat, penalty: int): State {
    var t := Create(s, a, source);
    var id := s.idCount;
    t.(info := t.info[id := t.info[id].(time := Max(0, a.time - penalty))], nNew := t.nNew + 1)
  }

  lemma RefreshConsistent(s: State, id: int, a: Address, penalty: int, now: int)
    requires Consistent(s, {}, 0) && id in s.info
    ensures var t := Edit(s, id, Refresh(s.info[id], a, penalty, now));
            && Consistent(t, {}, 0) && Consistent(t, {id}, 0) && (Inv(s) ==> Inv(t))
            && 0 <= t.info[id].refCount <= NEW_BUCKETS_PER_ADDRESS
  {
    hide AllFiled, TablesOk, Counted, Indexed;
    var t := Edit(s, id, Refresh(s.info[id], a, penalty, now));
    EditConsistent(s, id, t.info[id], {}, 0);
    Loosen(t, id);
    if Inv(s) { ExtendsInv(s, t); }
  }

  lemma Loosen(s: State, id: int)
    requires Consistent(s, {}, 0) && id in s.info
    ensures Consistent(s, {id}, 0) && 0 <= s.info[id].refCount <= NEW_BUCKETS_PER_ADDRESS
  {
    assert Filed(s, id, {});
    forall d | d in s.info ensures Filed(s, d, {id}) { assert Filed(s, d, {}); }
  }

  lemma AdmitConsistent(s: State, a: Address, source: nat, penalty: int)
    requires Consistent(s, {}, 0) && a.service.ip !in s.addr
    ensures Consistent(Admit(s, a, source, penalty), {s.idCount}, 0)
  {
    hide AllFiled, TablesOk, Counted, Indexed;
    var t := Create(s, a, source);
    var id := s.idCount;
    CreateConsistent(s, a, source, {}, 0);
    assert {} + {id} == {id};
    var e := t.info[id].(time := Max(0, a.time - penalty));
    EditConsistent(t, id, e, {id}, 1);
    Recount(Edit(t, id, e), {id}, 1, 1);
  }

  lemma PlaceConsistent(s: State, id: int, source: nat, now: int)
    requires Consistent(s, {id}, 0) && id in s.info && !s.info[id].inTried
    requires s.info[id].refCount < NEW_BUCKETS_PER_ADDRESS
    ensures Consistent(Place(s, id, source, now), {}, 0)
    ensures var t := Place(s, id, source, now);
            && SameFrame(s, t) && (forall d :: d in t.info ==> d in s.info && t.info[d].service == s.info[d].service)
  {
    hide AllFiled, TablesOk, Counted, Indexed, ClearNew, Delete;
    var u := NewSlot(s, s.info[id].service, source);
    PlaceFacts(s, id, u);
    if u in s.newTab && s.newTab[u] == id {
      Tighten(s, {}, id, 0);
    } else if u !in s.newTab || IsTerrible(s.info[s.newTab[u]], now)
              || (s.info[s.newTab[u]].refCount > 1 && s.info[id].refCount == 0) {
      ClearNewConsistent(s, u, {id}, 0);
      ClearNewKeeps(s, u);
      PutSlotConsistent(ClearNew(s, u), u, id, {id}, 0);
      assert {id} - {id} == {};
    } else if s.info[id].refCount == 0 {
      DeleteConsistent(s, id, {id}, 0);
      DeleteKeeps(s, id);
      assert {id} - {id} == {};
    } else {
      Tighten(s, {}, id, 0);
    }
  }

  lemma PlaceFacts(s: State, id: int, u: Slot)
    requires Consistent(s, {id}, 0) && id in s.info
    ensures {} + {id} == {id} && 0 <= s.info[id].refCount
    ensures u in s.newTab ==> s.newTab[u] in s.info
    ensures u in s.newTab && s.newTab[u] == id ==> 1 <= s.info[id].refCount
    ensures Indexed(s) && TablesOk(s)
  {
    assert Filed(s, id, {id});
    if u in s.newTab {
      assert NewSlotOk(s, u);
      assert s.newTab[u] == id ==> u in SlotsOf(s.newTab, id);
    }
  }

  /** Adding keeps the indexes in agreement, whatever collisions are remembered. */
  lemma AddConsistent(s: State, a: Address, source: nat, penalty: int, now: int, draw: nat)
    requires Consistent(s, {}, 0)
    ensures var t := Add(s, a, source, penalty, now, draw);
            Consistent(t, {}, 0) && Extends(s, t) && t.triedTab == s.triedTab && t.collisions == s.collisions
  {
    hide AllFiled, TablesOk, Counted, Indexed, Place;
    if s.env.routable(a.service.ip) {
      var pen := if a.service.ip == source then 0 else penalty;
      if a.service.ip in s.addr {
        KnownAddress(s, a.service.ip);
        var id := s.addr[a.service.ip];
        var t := Edit(s, id, Refresh(s.info[id], a, pen, now));
        RefreshConsistent(s, id, a, pen, now);
        if WantsSlot(t.info[id], a, draw) { PlaceConsistent(t, id, source, now); }
      } else {
        var t := Admit(s, a, source, pen);
        AdmitConsistent(s, a, source, pen);
        PlaceConsistent(t, s.idCount, source, now);
      }
    }
  }

  lemma AddInv(s: State, a: Address, source: nat, penalty: int, now: int, draw: nat)
    requires Inv(s)
    ensures Inv(Add(s, a, source, penalty, now, draw))
    ensures Add(s, a, source, penalty, now, draw).triedTab == s.triedTab
  {
    hide Consistent, Add;
    AddConsistent(s, a, source, penalty, now, draw);
    ExtendsInv(s, Add(s, a, source, penalty, now, draw));
  }

  /** Adding an address leaves the tried table and its entries in place. */
  lemma AddKeepsTried(s: State, a: Address, source: nat, penalty: int, now: int, draw: nat)
    requires Inv(s)
    ensures Add(s, a, source, penalty, now, draw).triedTab == s.triedTab
    ensures TriedIds(Add(s, a, source, penalty, now, draw)) == TriedIds(s)
  {
    hide AllFiled, TablesOk, Counted, Indexed, Place;
    var t := Add(s, a, source, penalty, now, draw);
    AddInv(s, a, source, penalty, now, draw);
    forall d ensures d in TriedIds(t) <==> d in TriedIds(s) {
      TriedById(s, d);
      TriedById(t, d);
    }
  }

  lemma TriedById(s: State, d: int)
    requires Inv(s)
    ensures d in TriedIds(s) <==> exists sl :: sl in s.triedTab && s.triedTab[sl] == d
  {
    if d in TriedIds(s) { assert Filed(s, d, {}); }
    forall sl | sl in s.triedTab && s.triedTab[sl] == d ensures d in TriedIds(s) { assert TriedSlotOk(s, sl); }
  }

  lemma KnownAddress(s: State, ip: nat)
    requires Consistent(s, {}, 0) && ip in s.addr
    ensures s.addr[ip] in s.info
  {
    assert AddressOk(s, ip);
  }

  // ----- GetAddr

  /** Bring a random one of the entries from position n on to position n. */
  function ShuffleStep(s: State, n: nat, draw: nat): (t: State)
    requires Indexed(s) && n < |s.random|
    ensures Indexed(t) && |t.random| == |s.random| && t.random[n] in t.info
  {
    var r := draw % (|s.random| - n) + n;
    SwapRandomIndexed(s, n, r);
    var t := SwapRandom(s, n, r);
    assert IndexedPos(t, n);
    t
  }

  /** Shuffle `random` from position n on, collecting entries worth sharing until
      `want` are found. */
  function GetAddr(s: State, n: nat, want: nat, draws: nat -> nat, now: int): (State, seq<int>)
    requires Indexed(s) && n <= |s.random|
    decreases |s.random| - n
  {
    if n == |s.random| || want == 0 then (s, []) else
    var t := ShuffleStep(s, n, draws(n));
    var id := t.random[n];
    if IsTerrible(t.info[id], now) then GetAddr(t, n + 1, want, draws, now)
    else var (u, ids) := GetAddr(t, n + 1, want - 1, draws, now); (u, [id] + ids)
  }

  function GetAddrLimit(s: State): nat {
    if GETADDR_MAX_PCT * |s.random| / 100 > GETADDR_MAX then GETADDR_MAX else GETADDR_MAX_PCT * |s.random| / 100
  }

  /** The entry is at position n of `random` or later, and worth sharing. */
  predicate Offered(s: State, n: nat, now: int, d: int) {
    d in s.info && n <= s.info[d].randomPos && !IsTerrible(s.info[d], now)
  }

  lemma MovedTerrible(d: Info, e: Info, now: int)
    requires Moved(d, e)
    ensures IsTerrible(d, now) == IsTerrible(e, now)
  {
  }

  lemma OfferedAfterSwap(s: State, n: nat, r: nat, now: int, d: int)
    requires Indexed(s) && n <= r < |s.random|
    ensures var t := SwapRandom(s, n, r);
            && (Offered(t, n + 1, now, d) <==> Offered(s, n, now, d) && d != t.random[n])
            && (d == t.random[n] ==> d in t.info && (Offered(s, n, now, d) <==> !IsTerrible(t.info[d], now)))
  {
    hide IsTerrible;
    var t := SwapRandom(s, n, r);
    assert IndexedPos(s, n) && IndexedPos(s, r);
    if d in s.info {
      assert IndexedEntry(s, d) && Moved(s.info[d], t.info[d]);
      MovedTerrible(s.info[d], t.info[d], now);
    }
  }

  lemma OfferedAfterStep(s: State, n: nat, draw: nat, now: int, d: int)
    requires Indexed(s) && n < |s.random|
    ensures var t := ShuffleStep(s, n, draw);
            && (Offered(t, n + 1, now, d) <==> Offered(s, n, now, d) && d != t.random[n])
            && (d == t.random[n] ==> (Offered(s, n, now, d) <==> !IsTerrible(t.info[d], now)))
  {
    hide SwapRandom, Indexed, IsTerrible, Offered;
    OfferedAfterSwap(s, n, draw % (|s.random| - n) + n, now, d);
  }

  lemma ShuffleStepInv(s: State, n: nat, draw: nat)
    requires Inv(s) && n < |s.random|
    ensures Inv(ShuffleStep(s, n, draw))
  {
    hide AllFiled, TablesOk, Counted, SwapRandom;
    var r := draw % (|s.random| - n) + n;
    SwapRandomIndexed(s, n, r);
    SwapRandomKeeps(s, n, r);
    TransferInv(s, SwapRandom(s, n, r));
  }

  lemma {:induction false} GetAddrInv(s: State, n: nat, want: nat, draws: nat -> nat, now: int)
    requires Inv(s) && n <= |s.random|
    ensures Inv(GetAddr(s, n, want, draws, now).0)
    decreases |s.random| - n
  {
    hide ShuffleStep, Indexed, AllFiled, TablesOk, Counted, IsTerrible;
    if n < |s.random| && want > 0 {
      ShuffleStepInv(s, n, draws(n));
      var t := ShuffleStep(s, n, draws(n));
      GetAddrInv(t, n + 1, if IsTerrible(t.info[t.random[n]], now) then want else want - 1, draws, now);
    }
  }

  lemma NoneOffered(s: State, now: int)
    requires Indexed(s)
    ensures forall d :: !Offered(s, |s.random|, now, d)
  {
    forall d | d in s.info ensures !Offered(s, |s.random|, now, d) { assert IndexedEntry(s, d); }
  }

  /** GetAddr returns distinct entries worth sharing, at most as many as asked
      for, and all of them when it returns fewer. */
  lemma {:induction false} GetAddrShares(s: State, n: nat, want: nat, draws: nat -> nat, now: int)
    requires Indexed(s) && n <= |s.random|
    ensures var ids := GetAddr(s, n, want, draws, now).1;
            && |ids| <= want
            && (forall i :: 0 <= i < |ids| ==> Offered(s, n, now, ids[i]))
            && (forall i, j :: 0 <= i < j < |ids| ==> ids[i] != ids[j])
            && (|ids| < want ==> forall d :: Offered(s, n, now, d) ==> d in ids)
    decreases |s.random| - n
  {
    hide ShuffleStep, Indexed, IsTerrible, Offered;
    NoneOffered(s, now);
    if n < |s.random| && want > 0 {
      var t := ShuffleStep(s, n, draws(n));
      forall d ensures (Offered(t, n + 1, now, d) <==> Offered(s, n, now, d) && d != t.random[n])
                       && (d == t.random[n] ==> (Offered(s, n, now, d) <==> !IsTerrible(t.info[d], now)))
      {
        OfferedAfterStep(s, n, draws(n), now, d);
      }
      GetAddrShares(t, n + 1, if IsTerrible(t.info[t.random[n]], now) then want else want - 1, draws, now);
    }
  }

  // ----- collisions

  function Erase(s: State, id: int): State { s.(collisions := s.collisions - {id}) }

  lemma EraseInv(s: State, id: int)
    requires Inv(s)
    ensures Inv(Erase(s, id))
  {
    hide AllFiled, TablesOk, Counted;
    var t := Erase(s, id);
    SameIndex(s, t);
    TransferConsistent(s, t, {}, 0);
    ExtendsInv(s, t);
  }

  /** Settle one remembered collision, or leave it for later. */
  function ResolveOne(s: State, id: int, now: int): State
    requires Inv(s) && now > 0
  {
    if id !in s.info then Erase(s, id) else
    var e := s.info[id];
    var k := TriedSlot(s, e.service);
    if !s.env.valid(e.service.ip) then Erase(s, id)
    else if k in s.triedTab then
      assert TriedSlotOk(s, k);
      var held := s.info[s.triedTab[k]];
      if now - held.lastSuccess < REPLACEMENT_HOURS * (60 * 60) then Erase(s, id)
      else if now - held.lastTry < REPLACEMENT_HOURS * (60 * 60) then
        if now - held.lastTry > 60 then Erase(Good(s, e.service, false, now), id) else s
      else if now - e.lastSuccess > TEST_WINDOW then Erase(Good(s, e.service, false, now), id)
      else s
    else Erase(Good(s, e.service, false, now), id)
  }

  lemma ResolveOneInv(s: State, id: int, now: int)
    requires Inv(s) && now > 0
    ensures Inv(ResolveOne(s, id, now)) && Extends(s, ResolveOne(s, id, now))
    ensures s.collisions - {id} <= ResolveOne(s, id, now).collisions <= s.collisions
  {
    hide Indexed, AllFiled, TablesOk, Counted, Good;
    EraseInv(s, id);
    if id in s.info {
      GoodInv(s, s.info[id].service, false, now);
      EraseInv(Good(s, s.info[id].service, false, now), id);
    }
  }

  /** Walk the remembered collisions below n in ascending order. */
  function ResolveBelow(s: State, n: nat, clock: nat -> int): (t: State)
    requires Inv(s) && forall i: nat :: clock(i) > 0
    ensures Inv(t)
  {
    hide Indexed, AllFiled, TablesOk, Counted, ResolveOne;
    if n == 0 then s else
    var t := ResolveBelow(s, n - 1, clock);
    if n - 1 in t.collisions then ResolveOneInv(t, n - 1, clock(n - 1)); ResolveOne(t, n - 1, clock(n - 1)) else t
  }

  /** The tried entry that collision `c` competes with; nothing if no collision is remembered. */
  function SelectTriedCollision(s: State, c: int): (State, Option<Info>)
    requires Inv(s) && (s.collisions != {} ==> c in s.collisions)
  {
    if s.collisions == {} then (s, None)
    else if c !in s.info then (Erase(s, c), None)
    else
      assert CollisionOk(s, c);
      var k := TriedSlot(s, s.info[c].service);
      assert TriedSlotOk(s, k);
      (s, Some(s.info[s.triedTab[k]]))
  }

  // ----- whole runs

  datatype Op =
    | AddOp(a: Address, source: nat, penalty: int, now: int, draw: nat)
    | GoodOp(svc: Service, testBeforeEvict: bool, time: int)
    | AttemptOp(svc: Service, countFailure: bool, time: int)
    | ConnectedOp(svc: Service, time: int)
    | SetServicesOp(svc: Service, services: set<nat>)
    | GetAddrOp(draws: nat -> nat, now: int)
    | ResolveOp(clock: nat -> int)
    | SelectCollisionOp(choice: int)

  /** The clock is past the epoch. */
  ghost predicate Clocked(op: Op) {
    match op
    case GoodOp(_, _, time) => time > 0
    case AttemptOp(_, _, time) => time >= 0
    case ResolveOp(clock) => forall i: nat :: clock(i) > 0
    case _ => true
  }

  function Step(s: State, op: Op): State
    requires Inv(s) && Clocked(op)
  {
    match op
    case AddOp(a, source, penalty, now, draw) => Add(s, a, source, penalty, now, draw)
    case GoodOp(svc, test, time) => Good(s, svc, test, time)
    case AttemptOp(svc, count, time) => Attempt(s, svc, count, time)
    case ConnectedOp(svc, time) => Connected(s, svc, time)
    case SetServicesOp(svc, services) => SetServices(s, svc, services)
    case GetAddrOp(draws, now) => GetAddr(s, 0, GetAddrLimit(s), draws, now).0
    case ResolveOp(clock) => ResolveBelow(s, s.idCount, clock)
    case SelectCollisionOp(c) => if c in s.collisions then SelectTriedCollision(s, c).0 else s
  }

  lemma EmptyInv(env: Env, key: nat)
    ensures Inv(Empty(env, key))
  {
    assert NewIds(Empty(env, key)) == {} && TriedIds(Empty(env, key)) == {};
  }

  lemma StepInv(s: State, op: Op)
    requires Inv(s) && Clocked(op)
    ensures Inv(Step(s, op))
  {
    hide Indexed, AllFiled, TablesOk, Counted, Good, Add, GetAddr, ResolveBelow;
    match op
    case AddOp(a, source, penalty, now, draw) => AddInv(s, a, source, penalty, now, draw);
    case GoodOp(svc, test, time) => GoodInv(s, svc, test, time);
    case AttemptOp(svc, count, time) => EditInv(s, svc, Attempt(s, svc, count, time));
    case ConnectedOp(svc, time) => EditInv(s, svc, Connected(s, svc, time));
    case SetServicesOp(svc, services) => EditInv(s, svc, SetServices(s, svc, services));
    case GetAddrOp(draws, now) => GetAddrInv(s, 0, GetAddrLimit(s), draws, now);
    case ResolveOp(clock) =>
    case SelectCollisionOp(c) => EraseInv(s, c);
  }

  lemma EditInv(s: State, svc: Service, t: State)
    requires Inv(s)
    requires Knows(s, svc) ==>
               var id := s.addr[svc.ip];
               id in t.info && t == Edit(s, id, t.info[id]) && SameEntry(s.info[id], t.info[id])
               && t.info[id].randomPos == s.info[id].randomPos
    requires !Knows(s, svc) ==> t == s
    ensures Inv(t)
  {
    if Knows(s, svc) {
      var id := s.addr[svc.ip];
      EditConsistent(s, id, t.info[id], {}, 0);
    }
  }

  /** Every run from construction reaches only states that satisfy the invariant. */
  ghost function Run(env: Env, key: nat, ops: seq<Op>): (s: State)
    requires forall op :: op in ops ==> Clocked(op)
    ensures Inv(s)
  {
    if ops == [] then EmptyInv(env, key); Empty(env, key)
    else
      var s := Run(env, key, ops[..|ops| - 1]);
      StepInv(s, ops[|ops| - 1]);
      Step(s, ops[|ops| - 1])
  }
}
