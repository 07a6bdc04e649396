/**
 The address manager as the object the program keeps: the fields of `CAddrMan`,
 its two bucket tables as fixed-size arrays that are updated in place, and its
 methods, each proved to act on the fields as its function in `AddrManModel` does.
 The assertions of the original are assertions here, so none of them can fire.
 */
module AddrManager {
  import opened Arithmetic
  import opened Options
  import opened M = AddrManModel

  /** The occupied slots of a bucket table. */
  ghost function Slots(a: array2<int>): map<Slot, int>
    reads a
  {
    map b: nat, i: nat | b < a.Length0 && i < a.Length1 && a[b, i] != -1 :: Slot(b, i) := a[b, i]
  }

  lemma SlotAt(a: array2<int>, b: nat, i: nat)
    requires b < a.Length0 && i < a.Length1
    ensures Slot(b, i) in Slots(a) <==> a[b, i] != -1
    ensures a[b, i] != -1 ==> Slots(a)[Slot(b, i)] == a[b, i]
  {
  }

  method SetCell(a: array2<int>, b: nat, i: nat, v: int)
    requires b < a.Length0 && i < a.Length1
    modifies a
    ensures Slots(a) == if v == -1 then old(Slots(a)) - {Slot(b, i)} else old(Slots(a))[Slot(b, i) := v]
    ensures a[b, i] == v
    ensures forall c, j :: 0 <= c < a.Length0 && 0 <= j < a.Length1 && (c != b || j != i) ==> a[c, j] == old(a[c, j])
  {
    a[b, i] := v;
  }

  class AddrMan {
    const env: Env
    var nKey: nat
    var nIdCount: int
    var mapInfo: map<int, Info>
    var mapAddr: map<nat, int>
    var vRandom: seq<int>
    var nTried: int
    const vvTried: array2<int>
    var nNew: int
    const vvNew: array2<int>
    var nLastGood: int
    var triedCollisions: set<int>

    ghost function Model(): State
      reads this, vvNew, vvTried
    {
      State(env, nKey, nIdCount, mapInfo, mapAddr, vRandom, nTried, Slots(vvTried), nNew, Slots(vvNew), nLastGood,
            triedCollisions)
    }

    ghost predicate Shaped() {
      && vvNew != vvTried
      && vvNew.Length0 == NEW_BUCKET_COUNT && vvNew.Length1 == BUCKET_SIZE
      && vvTried.Length0 == TRIED_BUCKET_COUNT && vvTried.Length1 == BUCKET_SIZE
    }

    ghost predicate Valid()
      reads this, vvNew, vvTried
    {
      Shaped() && Inv(Model())
    }

    constructor (env: Env, key: nat)
      ensures Valid() && Model() == Empty(env, key)
    {
      this.env, nKey := env, key;
      nIdCount, mapInfo, mapAddr, vRandom := 0, map[], map[], [];
      nTried, nNew, nLastGood, triedCollisions := 0, 0, 1, {};
      vvNew := new int[NEW_BUCKET_COUNT, BUCKET_SIZE]((b, i) => -1);
      vvTried := new int[TRIED_BUCKET_COUNT, BUCKET_SIZE]((b, i) => -1);
      new;
      EmptyInv(env, key);
    }

    method SwapRandom(i: nat, j: nat)
      requires Shaped() && Indexed(Model()) && i < |vRandom| && j < |vRandom|
      modifies this
      ensures Model() == M.SwapRandom(old(Model()), i, j)
    {
      if i == j { return; }
      assert IndexedPos(Model(), i) && IndexedPos(Model(), j);
      var id1, id2 := vRandom[i], vRandom[j];
      assert id1 in mapInfo && id2 in mapInfo;
      mapInfo := mapInfo[id1 := mapInfo[id1].(randomPos := j)];
      mapInfo := mapInfo[id2 := mapInfo[id2].(randomPos := i)];
      vRandom := vRandom[i := id2][j := id1];
    }

    method Delete(id: int)
      requires Shaped() && Indexed(Model()) && id in mapInfo
      requires !mapInfo[id].inTried && mapInfo[id].refCount == 0
      modifies this
      ensures Model() == M.Delete(old(Model()), id)
    {
      hide Slots, M.SwapRandom;
      assert id in mapInfo && !mapInfo[id].inTried && mapInfo[id].refCount == 0;
      assert IndexedEntry(Model(), id);
      SwapRandomIndexed(Model(), mapInfo[id].randomPos, |vRandom| - 1);
      SwapRandom(mapInfo[id].randomPos, |vRandom| - 1);
      vRandom := vRandom[..|vRandom| - 1];
      mapAddr := mapAddr - {mapInfo[id].service.ip};
      mapInfo := mapInfo - {id};
      nNew := nNew - 1;
    }

    method DropReference(b: nat, i: nat)
      requires Shaped() && b < NEW_BUCKET_COUNT && i < BUCKET_SIZE && vvNew[b, i] != -1 && vvNew[b, i] in mapInfo
      modifies this`mapInfo, vvNew
      ensures Slot(b, i) in old(Model()).newTab && old(Model()).newTab[Slot(b, i)] == old(vvNew[b, i])
      ensures Model() == DropSlot(old(Model()), Slot(b, i))
    {
      hide Slots;
      SlotAt(vvNew, b, i);
      var id := vvNew[b, i];
      mapInfo := mapInfo[id := mapInfo[id].(refCount := mapInfo[id].refCount - 1)];
      SetCell(vvNew, b, i, -1);
    }

    method ClearNew(b: nat, i: nat, ghost loose: set<int>, ghost pending: int)
      requires Shaped() && b < NEW_BUCKET_COUNT && i < BUCKET_SIZE && Consistent(Model(), loose, pending)
      modifies this, vvNew
      ensures Model() == M.ClearNew(old(Model()), Slot(b, i))
    {
      SlotAt(vvNew, b, i);
      if vvNew[b, i] != -1 {
        var id := vvNew[b, i];
        ghost var s := Model();
        assert NewSlotOk(s, Slot(b, i));
        assert mapInfo[id].refCount > 0 by {
          assert Filed(s, id, loose);
          assert Slot(b, i) in SlotsOf(s.newTab, id);
        }
        DropReference(b, i);
        if mapInfo[id].refCount == 0 {
          SameIndex(s, Model());
          Delete(id);
        }
      }
    }

    /** Move an entry from the new table to the tried table, evicting what is in its slot there. */
    method MakeTried(id: int)
      requires Shaped() && Consistent(Model(), {}, 0) && id in mapInfo && !mapInfo[id].inTried
      modifies this, vvNew, vvTried
      ensures Model() == M.MakeTried(old(Model()), id)
    {
      hide Slots, Consistent, SlotsOf, M.Evict;
      ghost var s := Model();
      SweptStart(s, id);
      UnlistConsistent(s, id, {}, 0);
      assert {} + {id} == {id};
      Unlist(id);
      ghost var t := Model();
      var kBucket := TriedBucket(env, nKey, mapInfo[id].service);
      var kPos := BucketPosition(env, nKey, false, kBucket, mapInfo[id].service);
      SlotAt(vvTried, kBucket, kPos);
      if vvTried[kBucket, kPos] != -1 {
        Evict(kBucket, kPos, id);
        EvictConsistent(t, Slot(kBucket, kPos), id);
      }
      SlotAt(vvTried, kBucket, kPos);
      assert vvTried[kBucket, kPos] == -1;
      SetCell(vvTried, kBucket, kPos, id);
      nTried := nTried + 1;
      mapInfo := mapInfo[id := mapInfo[id].(inTried := true)];
    }

    /** The part of MakeTried that moves the entry of a tried slot back to the new table. */
    method Evict(kBucket: nat, kPos: nat, ghost id: int)
      requires Shaped() && InTransit(Model(), id) && kBucket < TRIED_BUCKET_COUNT && kPos < BUCKET_SIZE
      requires vvTried[kBucket, kPos] != -1 && Slot(kBucket, kPos) in Model().triedTab
      modifies this, vvNew, vvTried
      ensures Model() == M.Evict(old(Model()), Slot(kBucket, kPos), id)
    {
      hide Slots, Consistent, SlotsOf, M.ClearNew, Indexed, TablesOk;
      ghost var s := Model();
      ghost var k := Slot(kBucket, kPos);
      SlotAt(vvTried, kBucket, kPos);
      TriedFacts(s, k, {id}, 1);
      DemoteConsistent(s, k, {id}, 1);
      var idEvict := vvTried[kBucket, kPos];
      assert idEvict in mapInfo;
      mapInfo := mapInfo[idEvict := mapInfo[idEvict].(inTried := false)];
      SetCell(vvTried, kBucket, kPos, -1);
      nTried := nTried - 1;
      assert Model() == Demote(s, k);
      var uBucket := NewBucket(env, nKey, mapInfo[idEvict].service, mapInfo[idEvict].source);
      var uPos := BucketPosition(env, nKey, true, uBucket, mapInfo[idEvict].service);
      EvictClears(s, k, id, Slot(uBucket, uPos));
      ClearNew(uBucket, uPos, {id} + {idEvict}, 2);
      SlotAt(vvNew, uBucket, uPos);
      assert vvNew[uBucket, uPos] == -1;
      mapInfo := mapInfo[idEvict := mapInfo[idEvict].(refCount := 1)];
      SetCell(vvNew, uBucket, uPos, idEvict);
      nNew := nNew + 1;
    }

    /** The loop of MakeTried that removes an entry from all new buckets. */
    method Unlist(id: int)
      requires Shaped() && Consistent(Model(), {}, 0) && id in mapInfo && !mapInfo[id].inTried
      modifies `mapInfo, `nNew, vvNew
      ensures Model() == M.Unlist(old(Model()), id)
    {
      hide Slots, Consistent, Swept, SlotsOf;
      ghost var s := Model();
      ghost var refs := mapInfo[id].refCount;
      SweptStart(s, id);
      for bucket := 0 to NEW_BUCKET_COUNT
        invariant Slots(vvNew) == Swept(s, id, bucket) && Slots(vvTried) == s.triedTab && nNew == s.nNew
        invariant refs == |SlotsOf(Swept(s, id, bucket), id)|
        invariant mapInfo == s.info[id := s.info[id].(refCount := refs)]
      {
        var pos := BucketPosition(env, nKey, true, bucket, mapInfo[id].service);
        SlotAt(vvNew, bucket, pos);
        SweptStep(s, id, bucket);
        if vvNew[bucket, pos] == id {
          SetCell(vvNew, bucket, pos, -1);
          Overwrite(s.info, id, mapInfo[id], mapInfo[id].(refCount := mapInfo[id].refCount - 1));
          mapInfo := mapInfo[id := mapInfo[id].(refCount := mapInfo[id].refCount - 1)];
          refs := refs - 1;
        }
      }
      SweptEnd(s, id);
      nNew := nNew - 1;
      assert mapInfo[id].refCount == 0;
    }

    method Find(ip: nat) returns (found: bool, id: int)
      requires Valid()
      ensures found <==> ip in mapAddr
      ensures found ==> id == mapAddr[ip] && id in mapInfo && mapInfo[id].service.ip == ip
    {
      found, id := false, -1;
      if ip in mapAddr {
        assert AddressOk(Model(), ip);
        found, id := true, mapAddr[ip];
      }
    }

    /** The search of Good_ for a bucket the entry is in, from a random one on: it always ends well. */
    method FindNewBucket(id: int, rnd: nat) returns (bucket: nat)
      requires Valid() && id in mapInfo && !mapInfo[id].inTried && rnd < NEW_BUCKET_COUNT
      ensures bucket < NEW_BUCKET_COUNT
      ensures vvNew[bucket, BucketPosition(env, nKey, true, bucket, mapInfo[id].service)] == id
    {
      var n := 0;
      while n < NEW_BUCKET_COUNT
        invariant 0 <= n <= NEW_BUCKET_COUNT
        invariant forall m :: 0 <= m < n ==> !ListedIn(id, Probe(m, rnd))
      {
        bucket := Probe(n, rnd);
        var pos := BucketPosition(env, nKey, true, bucket, mapInfo[id].service);
        if vvNew[bucket, pos] == id { return; }
        n := n + 1;
      }
      forall b | 0 <= b < NEW_BUCKET_COUNT ensures !ListedIn(id, b) {
        var m := if b >= rnd then b - rnd else b - rnd + NEW_BUCKET_COUNT;
        assert Probe(m, rnd) == b;
      }
      SomewhereListed(id);
      assert false;
    }

    static function Probe(n: nat, rnd: nat): nat { (n + rnd) % NEW_BUCKET_COUNT }

    ghost predicate ListedIn(id: int, b: int)
      requires Shaped() && id in mapInfo && 0 <= b < NEW_BUCKET_COUNT
      reads this, vvNew
    {
      vvNew[b, BucketPosition(env, nKey, true, b, mapInfo[id].service)] == id
    }

    lemma SomewhereListed(id: int)
      requires Valid() && id in mapInfo && !mapInfo[id].inTried
      ensures exists b :: 0 <= b < NEW_BUCKET_COUNT && ListedIn(id, b)
    {
      var s := Model();
      assert Filed(s, id, {});
      var sl :| sl in SlotsOf(s.newTab, id);
      assert NewSlotOk(s, sl);
      SlotAt(vvNew, sl.bucket, sl.pos);
      assert ListedIn(id, sl.bucket);
    }

    method Good(svc: Service, testBeforeEvict: bool, time: int, rnd: nat)
      requires Valid() && time > 0 && rnd < NEW_BUCKET_COUNT
      modifies this, vvNew, vvTried
      ensures Valid() && Model() == M.Good(old(Model()), svc, testBeforeEvict, time)
    {
      hide Slots, Consistent, SlotsOf, M.MakeTried, CollisionOk;
      ghost var s := Model();
      GoodInv(s, svc, testBeforeEvict, time);
      var found, id := Find(svc.ip);
      nLastGood := time;
      if !found || mapInfo[id].service != svc { return; }
      StampInv(s, id, time);
      mapInfo := mapInfo[id := mapInfo[id].(lastSuccess := time, lastTry := time, attempts := 0)];
      assert Model() == Stamp(s, id, time);
      if mapInfo[id].inTried { return; }
      var bucket := FindNewBucket(id, rnd);
      var kBucket := TriedBucket(env, nKey, svc);
      var kPos := BucketPosition(env, nKey, false, kBucket, svc);
      SlotAt(vvTried, kBucket, kPos);
      if testBeforeEvict && vvTried[kBucket, kPos] != -1 {
        if |triedCollisions| < TRIED_COLLISION_SIZE {
          triedCollisions := triedCollisions + {id};
        }
      } else {
        MakeTried(id);
      }
    }

    method Attempt(svc: Service, countFailure: bool, time: int)
      requires Valid() && time >= 0
      modifies this
      ensures Valid() && Model() == M.Attempt(old(Model()), svc, countFailure, time)
    {
      hide Slots, Consistent, SlotsOf, CollisionOk;
      ghost var s := Model();
      StepInv(s, AttemptOp(svc, countFailure, time));
      var found, id := Find(svc.ip);
      if !found || mapInfo[id].service != svc { return; }
      Overwrite(mapInfo, id, mapInfo[id].(lastTry := time),
                mapInfo[id].(lastTry := time, lastCountAttempt := time, attempts := mapInfo[id].attempts + 1));
      mapInfo := mapInfo[id := mapInfo[id].(lastTry := time)];
      if countFailure && mapInfo[id].lastCountAttempt < nLastGood {
        mapInfo := mapInfo[id := mapInfo[id].(lastCountAttempt := time, attempts := mapInfo[id].attempts + 1)];
      }
    }

    method Connected(svc: Service, time: int)
      requires Valid()
      modifies this
      ensures Valid() && Model() == M.Connected(old(Model()), svc, time)
    {
      hide Slots, Consistent, SlotsOf, CollisionOk;
      StepInv(Model(), ConnectedOp(svc, time));
      var found, id := Find(svc.ip);
      if !found || mapInfo[id].service != svc { return; }
      if time - mapInfo[id].time > 20 * 60 {
        mapInfo := mapInfo[id := mapInfo[id].(time := time)];
      }
    }

    method SetServices(svc: Service, services: set<nat>)
      requires Valid()
      modifies this
      ensures Valid() && Model() == M.SetServices(old(Model()), svc, services)
    {
      hide Slots, Consistent, SlotsOf, CollisionOk;
      StepInv(Model(), SetServicesOp(svc, services));
      var found, id := Find(svc.ip);
      if !found || mapInfo[id].service != svc { return; }
      mapInfo := mapInfo[id := mapInfo[id].(services := services)];
    }

    /** Put an entry in a new slot, in place of what is there. */
    method Replace(b: nat, i: nat, id: int)
      requires Shaped() && b < NEW_BUCKET_COUNT && i < BUCKET_SIZE && Consistent(Model(), {id}, 0) && 0 <= id
      requires id in mapInfo
      requires vvNew[b, i] != id
      modifies this, vvNew
      ensures id in M.ClearNew(old(Model()), Slot(b, i)).info
      ensures Model() == PutSlot(M.ClearNew(old(Model()), Slot(b, i)), Slot(b, i), id)
    {
      hide Slots, Consistent, SlotsOf, M.ClearNew;
      PlaceFacts(Model(), id, Slot(b, i));
      SlotAt(vvNew, b, i);
      ClearNewKeeps(Model(), Slot(b, i));
      ClearNew(b, i, {id}, 0);
      mapInfo := mapInfo[id := mapInfo[id].(refCount := mapInfo[id].refCount + 1)];
      SetCell(vvNew, b, i, id);
    }

    /** The second half of Add_: give the entry the slot its source determines. */
    method Place(id: int, source: nat, now: int)
      requires Shaped() && Consistent(Model(), {id}, 0) && id in mapInfo && !mapInfo[id].inTried
      requires 0 <= id && mapInfo[id].refCount < NEW_BUCKETS_PER_ADDRESS
      modifies this, vvNew
      ensures Model() == M.Place(old(Model()), id, source, now)
    {
      hide Slots, Consistent, SlotsOf, M.ClearNew, M.Delete, IsTerrible;
      ghost var s := Model();
      var uBucket := NewBucket(env, nKey, mapInfo[id].service, source);
      var uPos := BucketPosition(env, nKey, true, uBucket, mapInfo[id].service);
      SlotAt(vvNew, uBucket, uPos);
      PlaceFacts(s, id, Slot(uBucket, uPos));
      if vvNew[uBucket, uPos] != id {
        var insert := vvNew[uBucket, uPos] == -1;
        if !insert {
          var existing := mapInfo[vvNew[uBucket, uPos]];
          if IsTerrible(existing, now) || (existing.refCount > 1 && mapInfo[id].refCount == 0) {
            insert := true;
          }
        }
        if insert {
          Replace(uBucket, uPos, id);
        } else if mapInfo[id].refCount == 0 {
          Delete(id);
        }
      }
    }

    method Create(a: Address, source: nat) returns (id: int)
      requires Shaped()
      modifies this
      ensures Model() == M.Create(old(Model()), a, source) && id == old(nIdCount)
    {
      id := nIdCount;
      nIdCount := nIdCount + 1;
      mapInfo := mapInfo[id := Info(a.service, a.time, a.services, source, 0, 0, 0, 0, 0, false, -1)];
      mapAddr := mapAddr[a.service.ip := id];
      Overwrite(old(mapInfo), id, mapInfo[id], mapInfo[id].(randomPos := |vRandom|));
      mapInfo := mapInfo[id := mapInfo[id].(randomPos := |vRandom|)];
      vRandom := vRandom + [id];
    }

    static method Factor(refCount: nat) returns (factor: nat)
      ensures factor == Pow2(refCount) && (factor > 1 <==> refCount > 0)
    {
      factor := 1;
      for n := 0 to refCount
        invariant factor == Pow2(n) && (factor > 1 <==> n > 0)
      {
        factor := factor * 2;
      }
    }

    /** A new entry, counted but in no slot yet. */
    method AdmitNew(a: Address, source: nat, penalty: int) returns (id: int)
      requires Valid() && a.service.ip !in mapAddr
      modifies this
      ensures Shaped() && 0 <= id == old(nIdCount) && id in mapInfo && mapInfo[id].refCount == 0
      ensures Model() == Admit(old(Model()), a, source, penalty)
    {
      hide Slots, Consistent, SlotsOf, CollisionOk;
      EntryFacts(Model(), 0);
      id := Create(a, source);
      mapInfo := mapInfo[id := mapInfo[id].(time := Max(0, mapInfo[id].time - penalty))];
      nNew := nNew + 1;
    }

    method Add(a: Address, source: nat, penalty: int, now: int, draw: nat) returns (isNew: bool)
      requires Valid()
      modifies this, vvNew
      ensures Valid() && Model() == M.Add(old(Model()), a, source, penalty, now, draw)
      ensures isNew <==> env.routable(a.service.ip) && a.service.ip !in old(mapAddr)
    {
      hide Slots, Consistent, SlotsOf, M.Place, CollisionOk, Refresh;
      ghost var s := Model();
      AddInv(s, a, source, penalty, now, draw);
      isNew := false;
      if !env.routable(a.service.ip) { return; }
      var pen := if a.service.ip == source then 0 else penalty;
      var found, id := Find(a.service.ip);
      if found {
        RefreshConsistent(s, id, a, pen, now);
        mapInfo := mapInfo[id := Refresh(mapInfo[id], a, pen, now)];
        var e := mapInfo[id];
        if a.time == 0 || (e.time != 0 && a.time <= e.time) { return; }
        if e.inTried { return; }
        if e.refCount == NEW_BUCKETS_PER_ADDRESS { return; }
        EntryFacts(s, id);
        var factor := Factor(e.refCount);
        if factor > 1 && draw % factor != 0 { return; }
      } else {
        AdmitConsistent(s, a, source, pen);
        id := AdmitNew(a, source, pen);
        isNew := true;
      }
      Place(id, source, now);
    }

    /** The loop of GetAddr_ over a shuffled prefix of `vRandom`. */
    method GetAddr(draws: nat -> nat, now: int) returns (ids: seq<int>)
      requires Valid()
      modifies this
      ensures Valid() && (Model(), ids) == M.GetAddr(old(Model()), 0, GetAddrLimit(old(Model())), draws, now)
    {
      hide Slots, Consistent, Indexed, SlotsOf, IsTerrible, CollisionOk, ShuffleStep, M.GetAddr, M.SwapRandom, Prepend;
      var nNodes := GETADDR_MAX_PCT * |vRandom| / 100;
      if nNodes > GETADDR_MAX {
        nNodes := GETADDR_MAX;
      }
      ghost var s := Model();
      GetAddrInv(s, 0, nNodes, draws, now);
      ConsistentIndexed(s);
      ids := [];
      var n := 0;
      PrependNone(M.GetAddr(s, 0, nNodes, draws, now));
      while n < |vRandom| && |ids| < nNodes
        invariant Shaped() && Indexed(Model()) && 0 <= n <= |vRandom| && |ids| <= nNodes
        invariant M.GetAddr(s, 0, nNodes, draws, now) == Prepend(ids, M.GetAddr(Model(), n, nNodes - |ids|, draws, now))
        decreases |vRandom| - n
      {
        GetAddrStep(Model(), n, nNodes - |ids|, draws, now, ids);
        var pos := draws(n) % (|vRandom| - n) + n;
        SwapRandom(n, pos);
        assert vRandom[n] in mapInfo;
        if !IsTerrible(mapInfo[vRandom[n]], now) {
          ids := ids + [vRandom[n]];
        }
        n := n + 1;
      }
      GetAddrDone(Model(), n, nNodes - |ids|, draws, now, ids);
    }

    method ResolveCollisions(clock: nat -> int, rnd: nat)
      requires Valid() && rnd < NEW_BUCKET_COUNT && forall i: nat :: clock(i) > 0
      modifies this, vvNew, vvTried
      ensures Valid() && Model() == ResolveBelow(old(Model()), old(nIdCount), clock)
    {
      hide Slots, Consistent, SlotsOf, CollisionOk, ResolveOne;
      ghost var s := Model();
      EntryFacts(s, 0);
      var last := nIdCount;
      for id := 0 to last
        invariant Valid() && Model() == ResolveBelow(s, id, clock)
      {
        if id in triedCollisions {
          ResolveOneInv(Model(), id, clock(id));
          ResolveCollision(id, clock(id), rnd);
        }
      }
    }

    method ResolveCollision(id: int, now: int, rnd: nat)
      requires Valid() && rnd < NEW_BUCKET_COUNT && now > 0
      modifies this, vvNew, vvTried
      ensures Shaped() && Model() == ResolveOne(old(Model()), id, now)
    {
      hide Slots, Consistent, SlotsOf, CollisionOk, M.Good;
      ghost var s := Model();
      var eraseCollision := false;
      if id !in mapInfo {
        eraseCollision := true;
      } else {
        var svc := mapInfo[id].service;
        var kBucket := TriedBucket(env, nKey, svc);
        var kPos := BucketPosition(env, nKey, false, kBucket, svc);
        SlotAt(vvTried, kBucket, kPos);
        if !env.valid(svc.ip) {
          eraseCollision := true;
        } else if vvTried[kBucket, kPos] != -1 {
          TriedFacts(s, Slot(kBucket, kPos), {}, 0);
          var held := mapInfo[vvTried[kBucket, kPos]];
          if now - held.lastSuccess < REPLACEMENT_HOURS * (60 * 60) {
            eraseCollision := true;
          } else if now - held.lastTry < REPLACEMENT_HOURS * (60 * 60) {
            if now - held.lastTry > 60 {
              Good(svc, false, now, rnd);
              eraseCollision := true;
            }
          } else if now - mapInfo[id].lastSuccess > TEST_WINDOW {
            Good(svc, false, now, rnd);
            eraseCollision := true;
          }
        } else {
          Good(svc, false, now, rnd);
          eraseCollision := true;
        }
      }
      if eraseCollision {
        triedCollisions := triedCollisions - {id};
      }
    }

    /** The entry to test before collision `choice`, drawn from those remembered, may evict it:
        there always is one if `choice` is still known. */
    method SelectTriedCollision(choice: int) returns (r: Option<Info>)
      requires Valid() && (triedCollisions != {} ==> choice in triedCollisions)
      modifies this
      ensures Valid() && (Model(), r) == M.SelectTriedCollision(old(Model()), choice)
      ensures r.Some? <==> choice in old(triedCollisions) && choice in mapInfo
      ensures r.Some? ==> r.value.inTried
    {
      hide Slots, Consistent, SlotsOf;
      if triedCollisions == {} { return None; }
      ghost var s := Model();
      EraseInv(s, choice);
      if choice !in mapInfo {
        triedCollisions := triedCollisions - {choice};
        return None;
      }
      var svc := mapInfo[choice].service;
      var kBucket := TriedBucket(env, nKey, svc);
      var kPos := BucketPosition(env, nKey, false, kBucket, svc);
      SlotAt(vvTried, kBucket, kPos);
      assert CollisionOk(s, choice);
      TriedFacts(s, Slot(kBucket, kPos), {}, 0);
      var idOld := vvTried[kBucket, kPos];
      assert idOld != -1 && idOld in mapInfo;
      r := Some(mapInfo[idOld]);
    }
  }

  lemma EntryFacts(s: State, id: int)
    requires Inv(s)
    ensures 0 <= s.idCount && s.idCount !in s.info
    ensures id in s.info ==> 0 <= id && 0 <= s.info[id].refCount <= NEW_BUCKETS_PER_ADDRESS
  {
    assert id in s.info ==> Filed(s, id, {});
    forall d | d in s.info ensures d < s.idCount { assert Filed(s, d, {}); }
  }

  lemma ConsistentIndexed(s: State)
    requires Inv(s)
    ensures Indexed(s)
  {
  }

  ghost function Prepend(ids: seq<int>, r: (State, seq<int>)): (State, seq<int>) { (r.0, ids + r.1) }

  lemma PrependNone(r: (State, seq<int>))
    ensures Prepend([], r) == r
  {
    assert [] + r.1 == r.1;
  }

  lemma GetAddrStep(s: State, n: nat, want: nat, draws: nat -> nat, now: int, ids: seq<int>)
    requires Indexed(s) && n < |s.random| && want > 0
    ensures var t := M.SwapRandom(s, n, draws(n) % (|s.random| - n) + n);
            && Indexed(t) && |t.random| == |s.random| && t.random[n] in t.info
            && var id := t.random[n];
            Prepend(ids, M.GetAddr(s, n, want, draws, now)) ==
            if IsTerrible(t.info[id], now) then Prepend(ids, M.GetAddr(t, n + 1, want, draws, now))
            else Prepend(ids + [id], M.GetAddr(t, n + 1, want - 1, draws, now))
  {
    hide IsTerrible, Indexed, M.SwapRandom;
    var t := ShuffleStep(s, n, draws(n));
    var rest := M.GetAddr(t, n + 1, want - 1, draws, now).1;
    assert ids + ([t.random[n]] + rest) == ids + [t.random[n]] + rest;
  }

  lemma GetAddrDone(s: State, n: nat, want: nat, draws: nat -> nat, now: int, ids: seq<int>)
    requires Indexed(s) && n <= |s.random| && (n == |s.random| || want == 0)
    ensures Prepend(ids, M.GetAddr(s, n, want, draws, now)) == (s, ids)
  {
    assert ids + [] == ids;
  }

  lemma Overwrite<K, V>(m: map<K, V>, k: K, u: V, v: V)
    ensures m[k := u][k := v] == m[k := v]
  {
  }

  /** The new table once the slots of `id` in the first n buckets are cleared. */
  ghost function Swept(s: State, id: int, n: nat): map<Slot, int> {
    s.newTab - set sl | sl in s.newTab && s.newTab[sl] == id && sl.bucket < n
  }

  lemma SweptStart(s: State, id: int)
    requires Consistent(s, {}, 0) && id in s.info
    ensures 0 <= id && Swept(s, id, 0) == s.newTab && s.info[id].refCount == |SlotsOf(s.newTab, id)|
  {
    assert Filed(s, id, {});
  }

  lemma SweptStep(s: State, id: int, n: nat)
    requires Consistent(s, {}, 0) && id in s.info && n < NEW_BUCKET_COUNT
    ensures var sl := Slot(n, NewPosition(s, s.info[id].service, n));
            var a, b := Swept(s, id, n), Swept(s, id, n + 1);
            if sl in a && a[sl] == id
            then b == a - {sl} && |SlotsOf(b, id)| == |SlotsOf(a, id)| - 1
            else b == a
  {
    hide Indexed, AllFiled, Counted, BelongsInNew;
    var sl := Slot(n, NewPosition(s, s.info[id].service, n));
    var a, b := Swept(s, id, n), Swept(s, id, n + 1);
    forall x | x in s.newTab && s.newTab[x] == id && x.bucket == n ensures x == sl { InOwnSlot(s, x); }
    forall x ensures x in b <==> x in a && (x != sl || a[x] != id) {}
    if sl in a && a[sl] == id {
      assert b == a - {sl};
      assert SlotsOf(b, id) == SlotsOf(a, id) - {sl};
    } else {
      assert b == a;
    }
  }

  lemma InOwnSlot(s: State, sl: Slot)
    requires Consistent(s, {}, 0) && sl in s.newTab
    ensures s.newTab[sl] in s.info && sl.bucket < NEW_BUCKET_COUNT
    ensures sl == Slot(sl.bucket, NewPosition(s, s.info[s.newTab[sl]].service, sl.bucket))
  {
    assert NewSlotOk(s, sl);
  }

  lemma SweptEnd(s: State, id: int)
    requires Consistent(s, {}, 0)
    ensures Swept(s, id, NEW_BUCKET_COUNT) == s.newTab - SlotsOf(s.newTab, id)
    ensures |SlotsOf(Swept(s, id, NEW_BUCKET_COUNT), id)| == 0
  {
    forall x | x in s.newTab ensures x.bucket < NEW_BUCKET_COUNT { assert NewSlotOk(s, x); }
    assert Swept(s, id, NEW_BUCKET_COUNT) == s.newTab - SlotsOf(s.newTab, id);
    assert SlotsOf(Swept(s, id, NEW_BUCKET_COUNT), id) == {};
  }
}
