/**
 What the operations of the address manager do, field by field: which entry holds a tried slot
 after a collision was resolved, what a successful connection and a repeated announcement change,
 when an occupied slot is taken over, and which addresses are handed out.  Times are in seconds.
 */
module AddrManEffects {

  import opened Arithmetic
  import opened Options
  import opened AddrManModel

  /** All but the place in `random` is the same. */
  ghost predicate SamePeer(d: Info, e: Info) {
    && e.service == d.service && e.time == d.time && e.services == d.services && e.source == d.source
    && e.lastTry == d.lastTry && e.lastCountAttempt == d.lastCountAttempt && e.lastSuccess == d.lastSuccess
    && e.attempts == d.attempts && e.refCount == d.refCount && e.inTried == d.inTried
  }

  /** Entry d is there as before, or is not there as before. */
  ghost predicate Kept(s: State, t: State, d: int) {
    (d in t.info <==> d in s.info) && (d in s.info ==> SamePeer(s.info[d], t.info[d]))
  }

  /** Entry x lost one of its slots, and with the last one its place. */
  ghost predicate Displaced(s: State, t: State, x: int) {
    && x in s.info
    && (x in t.info <==> s.info[x].refCount != 1)
    && (x in t.info ==> SamePeer(s.info[x].(refCount := s.info[x].refCount - 1), t.info[x]))
  }

  ghost predicate SameSettings(s: State, t: State) {
    t.env == s.env && t.key == s.key && t.idCount == s.idCount && t.lastGood == s.lastGood
  }

  // ----- clearing a slot

  lemma DeleteEffect(s: State, id: int)
    requires Indexed(s) && id in s.info
    ensures var t := Delete(s, id);
            && id !in t.info && t.newTab == s.newTab && SameFrame(s, t)
            && forall d :: d != id ==> Kept(s, t, d)
  {
    hide Delete, Indexed;
    DeleteKeeps(s, id);
  }

  lemma ClearNewEffect(s: State, sl: Slot)
    requires Indexed(s) && TablesOk(s)
    ensures var t := ClearNew(s, sl);
            && SameFrame(s, t) && t.newTab == s.newTab - {sl}
            && (forall d :: (if sl in s.newTab && d == s.newTab[sl] then Displaced(s, t, d) else Kept(s, t, d)))
  {
    hide Delete, Indexed;
    if sl in s.newTab {
      assert NewSlotOk(s, sl);
      var id := s.newTab[sl];
      var u := DropSlot(s, sl);
      SameIndex(s, u);
      DeleteEffect(u, id);
      forall d | d != id ensures Kept(s, ClearNew(s, sl), d) {
        assert Kept(s, u, d) && Kept(u, Delete(u, id), d);
      }
    }
  }

  // ----- into the tried table

  /** The new table without the slots of `id`. */
  ghost predicate Unlisted(s: State, id: int, table: map<Slot, int>) {
    && (forall sl :: sl in table <==> sl in s.newTab && s.newTab[sl] != id)
    && (forall sl :: sl in table ==> table[sl] == s.newTab[sl])
  }

  /** Nobody was in the way: the entry has moved from its new slots to its tried slot. */
  ghost predicate MovedUp(s: State, t: State, id: int) {
    Unlisted(s, id, t.newTab) && forall d :: d != id ==> Kept(s, t, d)
  }

  /** Entry h was in the way: it is a new entry again, in the slot its own source gives it,
      from which another one may have had to go. */
  ghost predicate Exchanged(s: State, t: State, id: int, h: int)
    requires h in s.info
  {
    var u := NewSlot(s, s.info[h].service, s.info[h].source);
    && u in t.newTab && t.newTab[u] == h
    && (forall sl :: sl != u ==> (sl in t.newTab <==> sl in s.newTab && s.newTab[sl] != id))
    && (forall sl :: sl != u && sl in t.newTab ==> t.newTab[sl] == s.newTab[sl])
    && h in t.info && SamePeer(s.info[h].(refCount := 1, inTried := false), t.info[h])
    && (forall d :: d != id && d != h ==>
          if u in s.newTab && s.newTab[u] == d then Displaced(s, t, d) else Kept(s, t, d))
  }

  /** Entry `id` holds its tried slot, and what is in it otherwise is as before. */
  ghost predicate Promoted(s: State, t: State, id: int, was: Info)
    requires id in s.info
  {
    var k := TriedSlot(s, s.info[id].service);
    && t.triedTab == s.triedTab[k := id]
    && id in t.info && SamePeer(was.(refCount := 0, inTried := true), t.info[id])
    && if k in s.triedTab && s.triedTab[k] in s.info then Exchanged(s, t, id, s.triedTab[k]) else MovedUp(s, t, id)
  }

  lemma MakeTriedEffect(s: State, id: int)
    requires Consistent(s, {}, 0) && id in s.info && !s.info[id].inTried
    ensures var t := MakeTried(s, id);
            Promoted(s, t, id, s.info[id]) && SameSettings(s, t) && t.collisions == s.collisions
  {
    hide Evict, Indexed, AllFiled, Counted, TablesOk, Exchanged;
    UnlistConsistent(s, id, {}, 0);
    assert {} + {id} == {id};
    var u := Unlist(s, id);
    var k := TriedSlot(s, s.info[id].service);
    if k in s.triedTab {
      TriedFacts(s, k, {}, 0);
      EvictConsistent(u, k, id);
      EvictEffect(u, k, id);
      ExchangedFromListed(s, Evict(u, k, id), k, id, s.triedTab[k]);
    }
  }

  lemma ExchangedFromListed(s: State, t: State, k: Slot, id: int, h: int)
    requires id in s.info && h in s.info && h != id && id in t.info && Exchanged(Unlist(s, id), t, id, h)
    ensures Exchanged(s, Promote(t, k, id), id, h)
  {
    var u, v := Unlist(s, id), Promote(t, k, id);
    var sl := NewSlot(s, s.info[h].service, s.info[h].source);
    forall d | d != id && d != h
      ensures if sl in s.newTab && s.newTab[sl] == d then Displaced(s, v, d) else Kept(s, v, d)
    {
      assert if sl in u.newTab && u.newTab[sl] == d then Displaced(u, t, d) else Kept(u, t, d);
    }
  }

  /** The eviction alone. */
  lemma EvictEffect(s: State, k: Slot, id: int)
    requires InTransit(s, id) && k in s.triedTab
    ensures s.triedTab[k] in s.info && s.triedTab[k] != id
    ensures var t, h := Evict(s, k, id), s.triedTab[k];
            && t.triedTab == s.triedTab - {k} && SameSettings(s, t) && t.collisions == s.collisions
            && Exchanged(s, t, id, h) && id in t.info && SamePeer(s.info[id], t.info[id])
  {
    hide ClearNew, Indexed, AllFiled, TablesOk, Counted;
    TriedFacts(s, k, {id}, 1);
    NewFacts(s, id, {id}, 1);
    var h := s.triedTab[k];
    var d := Demote(s, k);
    var u := NewSlot(d, d.info[h].service, d.info[h].source);
    EvictClears(s, k, id, u);
    ClearNewEffect(d, u);
    var c := ClearNew(d, u);
    DemoteConsistent(s, k, {id}, 1);
    NewFacts(d, h, {id} + {h}, 2);
    forall x | x != id && x != h
      ensures var t := Evict(s, k, id);
              if u in s.newTab && s.newTab[u] == x then Displaced(s, t, x) else Kept(s, t, x)
    {
      assert if u in d.newTab && d.newTab[u] == x then Displaced(d, c, x) else Kept(d, c, x);
    }
  }

  // ----- Good

  /** A connection to an address that is not known, or known with another port, only sets the clock. */
  lemma GoodUnknown(s: State, svc: Service, testBeforeEvict: bool, time: int)
    requires Inv(s) && time > 0
    requires svc.ip in s.addr ==> s.addr[svc.ip] !in s.info || s.info[s.addr[svc.ip]].service != svc
    ensures Good(s, svc, testBeforeEvict, time) == s.(lastGood := time)
  {
  }

  /** The entry after a successful connection. */
  ghost predicate Succeeded(d: Info, e: Info, time: int) {
    && e.lastSuccess == time && e.lastTry == time && e.attempts == 0
    && e.service == d.service && e.time == d.time && e.services == d.services && e.source == d.source
    && e.lastCountAttempt == d.lastCountAttempt
  }

  /** A known address.  It goes to its tried slot, unless it is there already; and with
      `testBeforeEvict` it does not evict another one, but is remembered, with at most nine others. */
  lemma GoodEffect(s: State, svc: Service, testBeforeEvict: bool, time: int)
    requires Inv(s) && time > 0 && Knows(s, svc)
    ensures var t, id := Good(s, svc, testBeforeEvict, time), s.addr[svc.ip];
            var e, k := s.info[id], TriedSlot(s, svc);
            && t.lastGood == time && t.env == s.env && t.key == s.key && t.idCount == s.idCount
            && id in t.info && Succeeded(e, t.info[id], time)
            && if e.inTried || (testBeforeEvict && k in s.triedTab)
               then
                 && t.triedTab == s.triedTab && t.newTab == s.newTab
                 && t.info[id].inTried == e.inTried && t.info[id].refCount == e.refCount
                 && (forall d :: d != id ==> Kept(s, t, d))
                 && t.collisions == if !e.inTried && |s.collisions| < 10 then s.collisions + {id} else s.collisions
               else
                 && Promoted(s, t, id, e.(lastSuccess := time, lastTry := time, attempts := 0))
                 && t.collisions == s.collisions
  {
    hide MakeTried, Indexed, AllFiled, TablesOk, Counted, Exchanged;
    var id := s.addr[svc.ip];
    StampInv(s, id, time);
    var u := Stamp(s, id, time);
    if !u.info[id].inTried {
      MakeTriedEffect(u, id);
      PromotedFromStamped(s, MakeTried(u, id), id, time);
    }
  }

  lemma PromotedFromStamped(s: State, t: State, id: int, time: int)
    requires Consistent(s, {}, 0) && id in s.info && !s.info[id].inTried
    requires Promoted(Stamp(s, id, time), t, id, Stamp(s, id, time).info[id])
    ensures Promoted(s, t, id, s.info[id].(lastSuccess := time, lastTry := time, attempts := 0))
  {
    hide Indexed, AllFiled, TablesOk, Counted;
    var u := Stamp(s, id, time);
    var k := TriedSlot(s, s.info[id].service);
    if k in s.triedTab {
      TriedFacts(s, k, {}, 0);
      var h := s.triedTab[k];
      var sl := NewSlot(s, s.info[h].service, s.info[h].source);
      forall d | d != id && d != h
        ensures if sl in s.newTab && s.newTab[sl] == d then Displaced(s, t, d) else Kept(s, t, d)
      {
        assert if sl in u.newTab && u.newTab[sl] == d then Displaced(u, t, d) else Kept(u, t, d);
      }
    } else {
      forall d | d != id ensures Kept(s, t, d) { assert Kept(u, t, d); }
    }
  }

  // ----- collisions

  /** The holder of a tried slot has not connected for four hours, and either was tried without
      success more than a minute ago, or is not being tried and the newcomer has waited 40 minutes. */
  ghost predicate Yields(held: Info, e: Info, now: int) {
    && now - held.lastSuccess >= 4 * 3600
    && (60 < now - held.lastTry < 4 * 3600 || (now - held.lastTry >= 4 * 3600 && now - e.lastSuccess > 40 * 60))
  }

  /** It has not connected for four hours, but it may still do: it was tried within the last
      minute, or it is not being tried and the newcomer has not waited 40 minutes. */
  ghost predicate Undecided(held: Info, e: Info, now: int) {
    && now - held.lastSuccess >= 4 * 3600
    && (now - held.lastTry <= 60 || (now - held.lastTry >= 4 * 3600 && now - e.lastSuccess <= 40 * 60))
  }

  /** A collision with an address that is gone or not valid is forgotten, and nothing else happens. */
  lemma ResolveGone(s: State, id: int, now: int)
    requires Inv(s) && now > 0 && (id in s.info ==> !s.env.valid(s.info[id].service.ip))
    ensures ResolveOne(s, id, now) == s.(collisions := s.collisions - {id})
  {
  }

  /** Any other collision: the newcomer gets the tried slot exactly when nobody holds it or the
      holder yields, and the collision is forgotten exactly unless that is undecided. */
  lemma ResolveEffect(s: State, id: int, now: int)
    requires Inv(s) && now > 0 && id in s.info && s.env.valid(s.info[id].service.ip)
    ensures var t, e := ResolveOne(s, id, now), s.info[id];
            var k := TriedSlot(s, e.service);
            && (k !in s.triedTab ==>
                  Promoted(s, t, id, e.(lastSuccess := now, lastTry := now, attempts := 0))
                  && t.collisions == s.collisions - {id})
            && (k in s.triedTab ==>
                  && s.triedTab[k] in s.info
                  && var h := s.triedTab[k];
                  && (h != id ==> (k in t.triedTab && t.triedTab[k] == id <==> Yields(s.info[h], e, now)))
                  && (id in t.collisions <==> id in s.collisions && Undecided(s.info[h], e, now))
                  && (forall c :: c != id ==> (c in t.collisions <==> c in s.collisions))
                  && (!Yields(s.info[h], e, now) ==> t == s.(collisions := t.collisions))
                  && (Yields(s.info[h], e, now) && h != id ==>
                        Promoted(s, t, id, e.(lastSuccess := now, lastTry := now, attempts := 0)))
                  && (Yields(s.info[h], e, now) && h == id ==>
                        && t.triedTab == s.triedTab && t.newTab == s.newTab
                        && id in t.info && Succeeded(e, t.info[id], now) && forall d :: d != id ==> Kept(s, t, d)))
  {
    hide Good, Indexed, AllFiled, TablesOk, Counted, Promoted;
    FiledAt(s, id);
    var e := s.info[id];
    var k := TriedSlot(s, e.service);
    if k in s.triedTab {
      TriedFacts(s, k, {}, 0);
      FiledAt(s, s.triedTab[k]);
    }
    GoodEffect(s, e.service, false, now);
    var g := Good(s, e.service, false, now);
    if !e.inTried {
      PromotedErased(s, g, id, e.(lastSuccess := now, lastTry := now, attempts := 0));
    } else {
      forall d | d != id ensures Kept(s, Erase(g, id), d) { assert Kept(s, g, d); }
    }
  }

  lemma FiledAt(s: State, id: int)
    requires Inv(s) && id in s.info
    ensures Knows(s, s.info[id].service) && s.addr[s.info[id].service.ip] == id
    ensures var k := TriedSlot(s, s.info[id].service);
            s.info[id].inTried <==> k in s.triedTab && s.triedTab[k] == id
  {
    assert Filed(s, id, {});
    var k := TriedSlot(s, s.info[id].service);
    if k in s.triedTab { assert TriedSlotOk(s, k); }
  }

  lemma PromotedErased(s: State, t: State, id: int, was: Info)
    requires id in s.info && Promoted(s, t, id, was)
    ensures Promoted(s, Erase(t, id), id, was)
  {
    var k := TriedSlot(s, s.info[id].service);
    if k in s.triedTab && s.triedTab[k] in s.info {
      var h := s.triedTab[k];
      var sl := NewSlot(s, s.info[h].service, s.info[h].source);
      forall d | d != id && d != h
        ensures if sl in s.newTab && s.newTab[sl] == d then Displaced(s, Erase(t, id), d) else Kept(s, Erase(t, id), d)
      {
        assert if sl in s.newTab && s.newTab[sl] == d then Displaced(s, t, d) else Kept(s, t, d);
      }
    } else {
      forall d | d != id ensures Kept(s, Erase(t, id), d) { assert Kept(s, t, d); }
    }
  }

  /** Entry h holds tried slot k, with this last success. */
  ghost predicate Holds(s: State, k: Slot, h: int, success: int) {
    && k in s.triedTab && s.triedTab[k] == h && h in s.info && s.info[h].inTried
    && TriedSlot(s, s.info[h].service) == k && s.info[h].lastSuccess == success
  }

  lemma ResolveOneSpares(s: State, id: int, now: int, k: Slot, h: int)
    requires Inv(s) && now > 0 && h in s.info && Holds(s, k, h, s.info[h].lastSuccess)
    requires now - s.info[h].lastSuccess < 4 * 3600
    ensures Holds(ResolveOne(s, id, now), k, h, s.info[h].lastSuccess)
  {
    hide ResolveOne, Indexed, AllFiled, TablesOk, Counted;
    if id in s.info && s.env.valid(s.info[id].service.ip) {
      ResolveEffect(s, id, now);
      ResolveOneInv(s, id, now);
      FiledAt(s, id);
      FiledAt(s, h);
      if TriedSlot(s, s.info[id].service) != k {
        SparedByPromotion(s, ResolveOne(s, id, now), id, k, h, now);
      }
    } else {
      ResolveGone(s, id, now);
    }
  }

  /** Who holds another tried slot is neither displaced nor touched. */
  lemma SparedByPromotion(s: State, t: State, id: int, k: Slot, h: int, now: int)
    requires Inv(s) && id in s.info && h in s.info && Holds(s, k, h, s.info[h].lastSuccess) && Extends(s, t)
    requires TriedSlot(s, s.info[id].service) != k
    requires Promoted(s, t, id, s.info[id].(lastSuccess := now, lastTry := now, attempts := 0))
             || (t.triedTab == s.triedTab && Kept(s, t, h))
    ensures Holds(t, k, h, s.info[h].lastSuccess)
  {
    hide Indexed, AllFiled, Counted;
    var j := TriedSlot(s, s.info[id].service);
    if j in s.triedTab { assert TriedSlotOk(s, j); }
    forall sl | sl in s.newTab ensures s.newTab[sl] != h { assert NewSlotOk(s, sl); }
    assert Kept(s, t, h);
  }

  /** However many collisions are resolved, a peer that connected within the last four hours keeps its tried slot. */
  lemma {:induction false} ResolveSparesLivePeers(s: State, n: nat, clock: nat -> int, k: Slot, h: int)
    requires Inv(s) && (forall i: nat :: clock(i) > 0) && h in s.info && Holds(s, k, h, s.info[h].lastSuccess)
    requires forall i: nat :: clock(i) - s.info[h].lastSuccess < 4 * 3600
    ensures Holds(ResolveBelow(s, n, clock), k, h, s.info[h].lastSuccess)
  {
    hide ResolveOne, Indexed, AllFiled, TablesOk, Counted, Holds;
    if n > 0 {
      ResolveSparesLivePeers(s, n - 1, clock, k, h);
      var t := ResolveBelow(s, n - 1, clock);
      if n - 1 in t.collisions {
        HoldsInfo(t, k, h, s.info[h].lastSuccess);
        ResolveOneSpares(t, n - 1, clock(n - 1), k, h);
      }
    }
  }

  lemma HoldsInfo(s: State, k: Slot, h: int, success: int)
    requires Holds(s, k, h, success)
    ensures h in s.info && s.info[h].lastSuccess == success
  {
  }

  /** Before its turn a collision stays as it is. */
  lemma {:induction false} ResolveNotYet(s: State, n: nat, clock: nat -> int, c: int)
    requires Inv(s) && (forall i: nat :: clock(i) > 0) && n <= c
    ensures c in ResolveBelow(s, n, clock).collisions <==> c in s.collisions
  {
    hide ResolveOne, Indexed, AllFiled, TablesOk, Counted, Inv;
    if n > 0 {
      ResolveNotYet(s, n - 1, clock, c);
      var t := ResolveBelow(s, n - 1, clock);
      if n - 1 in t.collisions { ResolveOneInv(t, n - 1, clock(n - 1)); }
    }
  }

  /** So it does after it. */
  lemma {:induction false} ResolveNoMore(s: State, n: nat, m: nat, clock: nat -> int, c: int)
    requires Inv(s) && (forall i: nat :: clock(i) > 0) && c < n <= m
    ensures c in ResolveBelow(s, m, clock).collisions <==> c in ResolveBelow(s, n, clock).collisions
    decreases m
  {
    hide ResolveOne, Indexed, AllFiled, TablesOk, Counted, Inv;
    if n < m {
      ResolveNoMore(s, n, m - 1, clock, c);
      var t := ResolveBelow(s, m - 1, clock);
      if m - 1 in t.collisions { ResolveOneInv(t, m - 1, clock(m - 1)); }
    }
  }

  /** Every remembered collision has its turn: it is still remembered after the walk if and only if, when its turn
      came, its address was known and valid and its slot was held by one that was undecided. */
  lemma ResolveVisitsAll(s: State, clock: nat -> int, c: nat)
    requires Inv(s) && (forall i: nat :: clock(i) > 0) && c in s.collisions
    ensures s.idCount >= 0
    ensures var u := ResolveBelow(s, c, clock);
            && Inv(u) && c in u.collisions
            && (c in ResolveBelow(s, s.idCount, clock).collisions <==>
                  && c in u.info && u.env.valid(u.info[c].service.ip)
                  && var k := TriedSlot(u, u.info[c].service);
                  k in u.triedTab && u.triedTab[k] in u.info
                  && Undecided(u.info[u.triedTab[k]], u.info[c], clock(c)))
  {
    hide ResolveOne, Indexed, AllFiled, TablesOk, Counted, Undecided;
    assert CollisionOk(s, c);
    ResolveNotYet(s, c, clock, c);
    ResolveNoMore(s, c + 1, s.idCount, clock, c);
    var u := ResolveBelow(s, c, clock);
    if c in u.info && u.env.valid(u.info[c].service.ip) {
      ResolveEffect(u, c, clock(c));
    } else {
      ResolveGone(u, c, clock(c));
    }
  }

  /** The entry to test before collision c may evict it is the one in the way of c. */
  lemma SelectedIsInTheWay(s: State, c: int)
    requires Inv(s) && c in s.collisions && c in s.info
    ensures var (t, r) := SelectTriedCollision(s, c);
            var k := TriedSlot(s, s.info[c].service);
            t == s && k in s.triedTab && s.triedTab[k] in s.info && r == Some(s.info[s.triedTab[k]])
  {
    assert CollisionOk(s, c);
    TriedFacts(s, TriedSlot(s, s.info[c].service), {}, 0);
  }

  // ----- GetAddr

  /** An address that is not handed out, and gives way in the new table: not tried within the last
      minute, and dated more than ten minutes ahead, not seen for thirty days, tried three times
      without ever a success, or ten times since a success more than a week ago. */
  ghost predicate Withheld(e: Info, now: int) {
    && (e.lastTry == 0 || now - e.lastTry > 60)
    && (|| e.time > now + 600 || e.time == 0 || now - e.time > 2592000
        || (e.lastSuccess == 0 && e.attempts >= 3)
        || (now - e.lastSuccess > 604800 && e.attempts >= 10))
  }

  /** At most 23 in 100 of the known addresses are handed out, and at most 2500: each once, none that
      is withheld, and all others if they are fewer. */
  lemma GetAddrHandsOut(s: State, draws: nat -> nat, now: int)
    requires Inv(s)
    ensures var ids := GetAddr(s, 0, GetAddrLimit(s), draws, now).1;
            && |ids| <= 2500 && 100 * |ids| <= 23 * |s.info|
            && (forall i :: 0 <= i < |ids| ==> ids[i] in s.info && !Withheld(s.info[ids[i]], now))
            && (forall i, j :: 0 <= i < j < |ids| ==> ids[i] != ids[j])
            && (|ids| < 2500 && 100 * (|ids| + 1) <= 23 * |s.info| ==>
                  forall d :: d in s.info && !Withheld(s.info[d], now) ==> d in ids)
  {
    hide GetAddr, Consistent, Indexed;
    InvIndexed(s);
    var ids := GetAddr(s, 0, GetAddrLimit(s), draws, now).1;
    GetAddrShares(s, 0, GetAddrLimit(s), draws, now);
    if |ids| < 2500 && 100 * (|ids| + 1) <= 23 * |s.info| {
      forall d | d in s.info && !Withheld(s.info[d], now) ensures d in ids {
        IndexedAt(s, d);
        assert Offered(s, 0, now, d);
      }
    }
  }

  lemma InvIndexed(s: State)
    requires Inv(s)
    ensures Indexed(s) && |s.random| == |s.info|
  {
  }

  // ----- Add

  /** The slot can be had: it is free, or holds an address that is withheld, or the entry has no
      slot yet and the one in this slot has another. */
  ghost predicate Yielding(s: State, u: Slot, id: int, now: int)
    requires id in s.info && (u in s.newTab ==> s.newTab[u] in s.info)
  {
    || u !in s.newTab || Withheld(s.info[s.newTab[u]], now)
    || (s.info[s.newTab[u]].refCount > 1 && s.info[id].refCount == 0)
  }

  /** Entry `id` has one slot more, and what was there has one less. */
  ghost predicate TookOver(s: State, t: State, u: Slot, id: int)
    requires id in s.info
  {
    && t.newTab == s.newTab[u := id]
    && id in t.info && SamePeer(s.info[id].(refCount := s.info[id].refCount + 1), t.info[id])
    && (forall d :: d != id ==> if u in s.newTab && s.newTab[u] == d then Displaced(s, t, d) else Kept(s, t, d))
  }

  /** Without any slot it is not kept. */
  ghost predicate Dropped(s: State, t: State, id: int) {
    t.newTab == s.newTab && id !in t.info && forall d :: d != id ==> Kept(s, t, d)
  }

  lemma PlaceEffect(s: State, id: int, source: nat, now: int)
    requires Consistent(s, {id}, 0) && id in s.info && !s.info[id].inTried
    ensures var t, u := Place(s, id, source, now), NewSlot(s, s.info[id].service, source);
            && (u in s.newTab ==> s.newTab[u] in s.info) && SameFrame(s, t)
            && if u in s.newTab && s.newTab[u] == id then t == s
               else if Yielding(s, u, id, now) then TookOver(s, t, u, id)
               else if s.info[id].refCount == 0 then Dropped(s, t, id) else t == s
  {
    hide Consistent, ClearNew, Delete, Indexed, TablesOk;
    var u := NewSlot(s, s.info[id].service, source);
    PlaceFacts(s, id, u);
    if u in s.newTab && s.newTab[u] == id {
    } else if Yielding(s, u, id, now) {
      ClearNewKeeps(s, u);
      ClearNewEffect(s, u);
      var c := ClearNew(s, u);
      assert Kept(s, c, id);
      forall d | d != id
        ensures var t := PutSlot(c, u, id);
                if u in s.newTab && s.newTab[u] == d then Displaced(s, t, d) else Kept(s, t, d)
      {
        assert if u in s.newTab && s.newTab[u] == d then Displaced(s, c, d) else Kept(s, c, d);
      }
    } else if s.info[id].refCount == 0 {
      DeleteEffect(s, id);
    }
  }

  lemma AddUnroutable(s: State, a: Address, source: nat, penalty: int, now: int, draw: nat)
    requires Consistent(s, {}, 0) && !s.env.routable(a.service.ip)
    ensures Add(s, a, source, penalty, now, draw) == s
  {
  }

  /** A source may date the addresses it announces, but for others it is charged a penalty. */
  ghost function Penalty(a: Address, source: nat, penalty: int): int {
    if a.service.ip == source then 0 else penalty
  }

  /** What a repeated announcement changes in the entry: the services it adds, and a date that is
      newer by more than an hour (a day, for an address not seen within a day) and the penalty. */
  ghost predicate Announced(d: Info, e: Info, a: Address, penalty: int, now: int) {
    && e.services == d.services + a.services
    && (var lag := if now - a.time < 86400 then 3600 else 86400;
        if a.time != 0 && (d.time == 0 || a.time - d.time > lag + penalty)
        then e.time == (if a.time < penalty then 0 else a.time - penalty) else e.time == d.time)
    && e.service == d.service && e.source == d.source && e.inTried == d.inTried
    && e.lastTry == d.lastTry && e.lastCountAttempt == d.lastCountAttempt && e.lastSuccess == d.lastSuccess
    && e.attempts == d.attempts
  }

  /** Announcing a known address again.  It may gain a slot if the announcement is newer than its
      date, it is not tried, has fewer than eight slots, and wins a draw of one in two for each slot it has;
      and then only one that is free or held by a withheld address. */
  lemma AddKnown(s: State, a: Address, source: nat, penalty: int, now: int, draw: nat)
    requires Consistent(s, {}, 0) && s.env.routable(a.service.ip) && a.service.ip in s.addr
    ensures var t, id := Add(s, a, source, penalty, now, draw), s.addr[a.service.ip];
            && id in s.info && s.info[id].refCount >= 0 && SameFrame(s, t) && id in t.info
            && Announced(s.info[id], t.info[id], a, Penalty(a, source, penalty), now)
            && var e, u := s.info[id], NewSlot(s, s.info[id].service, source);
            && (u in s.newTab ==> s.newTab[u] in s.info)
            && if && a.time != 0 && (t.info[id].time == 0 || a.time > t.info[id].time)
                  && !e.inTried && e.refCount < 8 && draw % Pow2(e.refCount) == 0
                  && (u !in s.newTab || (s.newTab[u] != id && Withheld(s.info[s.newTab[u]], now)))
               then
                 && t.newTab == s.newTab[u := id] && t.info[id].refCount == e.refCount + 1
                 && (forall d :: d != id ==>
                       if u in s.newTab && s.newTab[u] == d then Displaced(s, t, d) else Kept(s, t, d))
               else
                 t.newTab == s.newTab && t.info[id].refCount == e.refCount && forall d :: d != id ==> Kept(s, t, d)
  {
    hide Consistent, Place, NewSlot;
    KnownAddress(s, a.service.ip);
    var id := s.addr[a.service.ip];
    KnownListed(s, id);
    var pen := Penalty(a, source, penalty);
    var r := Edit(s, id, Refresh(s.info[id], a, pen, now));
    RefreshConsistent(s, id, a, pen, now);
    var u := NewSlot(s, s.info[id].service, source);
    PlaceFacts(r, id, u);
    NewSlotSame(s, r, s.info[id].service, source);
    if WantsSlot(r.info[id], a, draw) {
      PlaceEffect(r, id, source, now);
      var t := Place(r, id, source, now);
      if TookOver(r, t, u, id) {
        forall d | d != id
          ensures if u in s.newTab && s.newTab[u] == d then Displaced(s, t, d) else Kept(s, t, d)
        {
          assert if u in r.newTab && r.newTab[u] == d then Displaced(r, t, d) else Kept(r, t, d);
        }
      }
    }
  }

  lemma NewSlotSame(s: State, t: State, svc: Service, source: nat)
    requires t.env == s.env && t.key == s.key
    ensures NewSlot(t, svc, source) == NewSlot(s, svc, source)
  {
  }

  lemma KnownListed(s: State, id: int)
    requires Consistent(s, {}, 0) && id in s.info
    ensures if s.info[id].inTried then s.info[id].refCount == 0 else 1 <= s.info[id].refCount <= 8
  {
    assert Filed(s, id, {});
  }

  /** Announcing an unknown address: it is kept if the slot its source gives it is free, or held by
      a withheld address or by one that has another slot. */
  lemma AddUnknown(s: State, a: Address, source: nat, penalty: int, now: int, draw: nat)
    requires Consistent(s, {}, 0) && s.env.routable(a.service.ip) && a.service.ip !in s.addr
    ensures var t, id := Add(s, a, source, penalty, now, draw), s.idCount;
            var u := NewSlot(s, a.service, source);
            && t.idCount == s.idCount + 1 && t.triedTab == s.triedTab && t.collisions == s.collisions
            && t.lastGood == s.lastGood && t.env == s.env && t.key == s.key && id !in s.info
            && (u in s.newTab ==> s.newTab[u] in s.info)
            && if || u !in s.newTab || Withheld(s.info[s.newTab[u]], now) || s.info[s.newTab[u]].refCount > 1
               then
                 && t.newTab == s.newTab[u := id] && id in t.info && Listed(t.info[id], a, source)
                 && t.info[id].time == (if a.time < Penalty(a, source, penalty) then 0
                                        else a.time - Penalty(a, source, penalty))
                 && (forall d :: d != id ==>
                       if u in s.newTab && s.newTab[u] == d then Displaced(s, t, d) else Kept(s, t, d))
               else
                 t.newTab == s.newTab && id !in t.info && forall d :: d != id ==> Kept(s, t, d)
  {
    hide Consistent, Place, NewSlot, AllFiled;
    var id := s.idCount;
    var pen := Penalty(a, source, penalty);
    var r := Admit(s, a, source, pen);
    AdmitConsistent(s, a, source, pen);
    ConsistentIds(s);
    var u := NewSlot(s, a.service, source);
    NewSlotSame(s, r, a.service, source);
    NewHolder(s, u);
    PlaceEffect(r, id, source, now);
    var t := Place(r, id, source, now);
    forall d | d != id ensures Kept(s, r, d) {}
    if TookOver(r, t, u, id) {
      forall d | d != id
        ensures if u in s.newTab && s.newTab[u] == d then Displaced(s, t, d) else Kept(s, t, d)
      {
        assert if u in r.newTab && r.newTab[u] == d then Displaced(r, t, d) else Kept(r, t, d);
      }
    } else {
      forall d | d != id ensures Kept(s, t, d) { assert Kept(s, r, d) && Kept(r, t, d); }
    }
  }

  /** A new entry with one slot, of which nothing is known but what was announced. */
  ghost predicate Listed(e: Info, a: Address, source: nat) {
    && e.service == a.service && e.services == a.services && e.source == source && !e.inTried && e.refCount == 1
    && e.lastTry == 0 && e.lastCountAttempt == 0 && e.lastSuccess == 0 && e.attempts == 0
  }

  lemma ConsistentIds(s: State)
    requires Consistent(s, {}, 0)
    ensures s.idCount !in s.info
  {
    IdsBelow(s, {});
  }

  lemma NewHolder(s: State, u: Slot)
    requires Consistent(s, {}, 0)
    ensures u in s.newTab ==> s.newTab[u] in s.info
  {
    assert u in s.newTab ==> NewSlotOk(s, u);
  }

  // ----- failures

  /** A failure counts once between two successes: a second one before the next success does not. */
  lemma FailureCountsOnce(s: State, svc: Service, time: int, later: int)
    requires Knows(s, svc) && s.lastGood <= time
    ensures var id := s.addr[svc.ip];
            var t := Attempt(s, svc, true, time);
            var u := Attempt(t, svc, true, later);
            && id in t.info && id in u.info
            && t.info[id].attempts == s.info[id].attempts + (if s.info[id].lastCountAttempt < s.lastGood then 1 else 0)
            && t.info[id].lastTry == time && u.info[id].attempts == t.info[id].attempts
            && u == s.(info := s.info[id := u.info[id]]) && u.info[id].lastTry == later
            && SamePeer(s.info[id].(lastTry := later, attempts := u.info[id].attempts,
                                    lastCountAttempt := u.info[id].lastCountAttempt), u.info[id])
  {
  }

  /** While a peer stays connected its date never lags by more than twenty minutes; nothing else changes,
      and a date that is recent enough is kept. */
  lemma ConnectedEffect(s: State, svc: Service, time: int)
    requires Knows(s, svc)
    ensures var t, id := Connected(s, svc, time), s.addr[svc.ip];
            && id in t.info && time - t.info[id].time <= 1200 && t.info[id].time in {s.info[id].time, time}
            && (time - s.info[id].time <= 1200 ==> t.info[id].time == s.info[id].time)
            && t == s.(info := s.info[id := s.info[id].(time := t.info[id].time)])
  {
    assert s.info[s.addr[svc.ip] := s.info[s.addr[svc.ip]]] == s.info;
  }

  /** The services of a known address are replaced, and nothing else changes. */
  lemma SetServicesEffect(s: State, svc: Service, services: set<nat>)
    requires Knows(s, svc)
    ensures var t, id := SetServices(s, svc, services), s.addr[svc.ip];
            id in t.info && t.info[id].services == services
            && t == s.(info := s.info[id := s.info[id].(services := t.info[id].services)])
  {
  }
}
