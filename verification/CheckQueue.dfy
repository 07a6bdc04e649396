/**
 The verification queue: a master adds checks, workers take batches of them, and
 the master joins in until all are done.  Every region that holds the mutex is one
 step; a thread waits on its condition variable until it is woken, possibly for no
 reason.  Thread 0 is the master; there can be any number of workers.
 */
module CheckQueue {
  import opened Arithmetic

  /** A check and what running it returns. */
  datatype Check = Check(id: nat, ok: bool)

  datatype Thread =
    | Outside                                          // a worker not started, or the master between calls
    | Holding                                          // inside a locked region
    | Running(batch: seq<Check>, taken: nat, ok: bool) // outside the lock: checks left, nNow and fOk
    | Asleep                                           // in cond.wait, not notified
    | Woken                                            // notified, waiting for the lock

  /** What a call of Wait returned, with the checks of its round. */
  datatype Verdict = Verdict(result: bool, added: multiset<Check>, ran: multiset<Check>)

  /** The fields of the queue, the threads, what happened since the last verdict, and the verdicts. */
  datatype State = State(
    queue: seq<Check>, nIdle: int, nTotal: int, allOk: bool, nTodo: int, batchSize: nat,
    threads: seq<Thread>,
    added: multiset<Check>, ran: multiset<Check>, skipped: multiset<Check>,
    verdicts: seq<Verdict>)

  function Init(workers: nat, batchSize: nat): State {
    State([], 0, 0, true, 0, batchSize, seq(workers + 1, i => Outside), multiset{}, multiset{}, multiset{}, [])
  }

  // ----- the locked regions

  function Max(a: int, b: int): int { if a < b then b else a }
  function Min(a: int, b: int): int { if a < b then a else b }

  /** How many checks to take.  The counters of threads are not negative in any run (SumNatural). */
  function BatchLength(s: State): (n: nat)
    requires s.queue != []
    ensures 1 <= n <= |s.queue|
  {
    var threads := Max(0, s.nTotal + s.nIdle) + 1;
    assert |s.queue| / threads <= |s.queue|;
    Max(1, Min(s.batchSize, |s.queue| / threads))
  }

  /** The last n checks, last one first. */
  function FromBack(q: seq<Check>, n: nat): (r: seq<Check>)
    requires n <= |q|
    ensures |r| == n && multiset(r) + multiset(q[..|q| - n]) == multiset(q)
  {
    if n == 0 then assert q[..|q|] == q; []
    else
      assert q == q[..|q| - 1] + [q[|q| - 1]];
      assert q[..|q| - 1][..|q| - n] == q[..|q| - n];
      [q[|q| - 1]] + FromBack(q[..|q| - 1], n - 1)
  }

  /** The queue is a stack. */
  lemma {:induction false} FromBackOrder(q: seq<Check>, n: nat, i: nat)
    requires i < n <= |q|
    ensures FromBack(q, n)[i] == q[|q| - 1 - i]
  {
    if i > 0 { FromBackOrder(q[..|q| - 1], n - 1, i - 1); }
  }

  function Set(s: State, t: nat, x: Thread): State
    requires t < |s.threads|
  {
    s.(threads := s.threads[t := x])
  }

  predicate Returns(s: State, t: nat) { s.queue == [] && t == 0 && s.nTodo == 0 }

  /** The loop that leaves a locked region: return, wait, or take a batch. */
  function Leave(s: State, t: nat): State
    requires t < |s.threads|
  {
    if Returns(s, t) then
      Set(s, t, Outside).(nTotal := s.nTotal - 1, allOk := true,
                          added := multiset{}, ran := multiset{}, skipped := multiset{},
                          verdicts := s.verdicts + [Verdict(s.allOk, s.added, s.ran)])
    else if s.queue == [] then Set(s, t, Asleep).(nIdle := s.nIdle + 1)
    else
      var n := BatchLength(s);
      Set(s, t, Running(FromBack(s.queue, n), n, s.allOk)).(queue := s.queue[..|s.queue| - n])
  }

  /** First iteration. */
  function Join(s: State, t: nat): State
    requires t < |s.threads|
  {
    Set(s, t, Holding).(nTotal := s.nTotal + 1)
  }

  /** Later iterations clean up the batch of the previous one. */
  function CleanUp(s: State, t: nat): State
    requires t < |s.threads| && s.threads[t].Running?
  {
    var u := Settle(s, t);
    if u.nTodo == 0 && t != 0 && u.threads[0].Asleep? then Set(u, 0, Woken) else u
  }

  /** A wait is over. */
  function Reacquire(s: State, t: nat): State
    requires t < |s.threads|
  {
    Set(s, t, Holding).(nIdle := s.nIdle - 1)
  }

  function WakeWorkers(threads: seq<Thread>): seq<Thread> {
    seq(|threads|, i requires 0 <= i < |threads| => if i > 0 && threads[i].Asleep? then Woken else threads[i])
  }

  function Queue(s: State, checks: seq<Check>): State {
    s.(queue := s.queue + checks, nTodo := s.nTodo + |checks|, added := s.added + multiset(checks))
  }

  // ----- steps

  datatype Step =
    | Add(checks: seq<Check>, picked: nat) // the master queues work; notify_one picks a waiting worker
    | Start(t: nat)                        // Thread() or Wait() takes the lock for the first time
    | RunOne(t: nat)                       // one check of a batch, outside the lock
    | Finish(t: nat)                       // a batch is done: back to the lock
    | Wake(t: nat)                         // a woken thread gets the lock
    | Spurious(t: nat)                     // a wait ends for no reason

  /** Some worker is in cond.wait. */
  predicate SomeoneWaits(s: State) { exists t :: 0 < t < |s.threads| && s.threads[t].Asleep? }

  predicate Enabled(s: State, step: Step) {
    match step
    case Add(checks, w) =>
      && |s.threads| > 0 && s.threads[0].Outside?
      && (|checks| == 1 && SomeoneWaits(s) ==> 0 < w < |s.threads| && s.threads[w].Asleep?)
    case Start(t) => t < |s.threads| && s.threads[t].Outside?
    case RunOne(t) => t < |s.threads| && s.threads[t].Running? && s.threads[t].batch != []
    case Finish(t) => t < |s.threads| && s.threads[t].Running? && s.threads[t].batch == []
    case Wake(t) => t < |s.threads| && s.threads[t].Woken?
    case Spurious(t) => t < |s.threads| && s.threads[t].Asleep?
  }

  function AddStep(s: State, checks: seq<Check>, picked: nat): State {
    var u := Queue(s, checks);
    if |checks| == 1 && 0 < picked < |u.threads| && u.threads[picked].Asleep? then Set(u, picked, Woken)
    else if |checks| > 1 then u.(threads := WakeWorkers(u.threads))
    else u
  }

  function RunStep(s: State, t: nat): State
    requires t < |s.threads| && s.threads[t].Running? && s.threads[t].batch != []
  {
    var me := s.threads[t];
    var c := me.batch[0];
    var u := Set(s, t, Running(me.batch[1..], me.taken, me.ok && c.ok));
    if me.ok then u.(ran := s.ran + multiset{c}) else u.(skipped := s.skipped + multiset{c})
  }

  // ----- sums over the threads

  function Sum(f: Thread -> nat, ts: seq<Thread>): nat {
    if ts == [] then 0 else Sum(f, ts[..|ts| - 1]) + f(ts[|ts| - 1])
  }

  function Taken(x: Thread): nat { if x.Running? then x.taken else 0 }
  function Idle(x: Thread): nat { if x.Asleep? || x.Woken? then 1 else 0 }
  function Inside(x: Thread): nat { if x.Outside? then 0 else 1 }

  ghost function InHand(ts: seq<Thread>): multiset<Check> {
    if ts == [] then multiset{} else InHand(ts[..|ts| - 1]) + Held(ts[|ts| - 1])
  }

  ghost function Held(x: Thread): multiset<Check> { if x.Running? then multiset(x.batch) else multiset{} }

  lemma {:induction false} SumUpdate(f: Thread -> nat, ts: seq<Thread>, t: nat, x: Thread)
    requires t < |ts|
    ensures Sum(f, ts[t := x]) == Sum(f, ts) - f(ts[t]) + f(x)
  {
    var us, n := ts[t := x], |ts| - 1;
    if t < n {
      SumUpdate(f, ts[..n], t, x);
      assert us[..n] == ts[..n][t := x];
    } else {
      assert us[..n] == ts[..n];
    }
  }

  lemma {:induction false} SumAt(f: Thread -> nat, ts: seq<Thread>, t: nat)
    requires t < |ts|
    ensures f(ts[t]) <= Sum(f, ts)
  {
    if t < |ts| - 1 { SumAt(f, ts[..|ts| - 1], t); }
  }

  lemma {:induction false} SumSame(f: Thread -> nat, ts: seq<Thread>, us: seq<Thread>)
    requires |ts| == |us| && forall i :: 0 <= i < |ts| ==> f(ts[i]) == f(us[i])
    ensures Sum(f, ts) == Sum(f, us)
  {
    if ts != [] { SumSame(f, ts[..|ts| - 1], us[..|us| - 1]); }
  }

  lemma {:induction false} SumPositive(f: Thread -> nat, ts: seq<Thread>)
    ensures Sum(f, ts) > 0 <==> exists i :: 0 <= i < |ts| && f(ts[i]) > 0
  {
    if ts != [] {
      var r := ts[..|ts| - 1];
      SumPositive(f, r);
      if Sum(f, ts) > 0 {
        if f(ts[|ts| - 1]) == 0 {
          var i :| 0 <= i < |r| && f(r[i]) > 0;
          assert f(ts[i]) > 0;
        }
      } else {
        forall i | 0 <= i < |ts| ensures f(ts[i]) == 0 { SumAt(f, ts, i); }
      }
    }
  }

  lemma {:induction false} InHandUpdate(ts: seq<Thread>, t: nat, x: Thread)
    requires t < |ts|
    ensures InHand(ts[t := x]) + Held(ts[t]) == InHand(ts) + Held(x)
  {
    hide Held;
    var us, n := ts[t := x], |ts| - 1;
    assert InHand(us) == InHand(us[..n]) + Held(us[n]);
    if t < n {
      InHandUpdate(ts[..n], t, x);
      assert us[..n] == ts[..n][t := x];
      Exchange(InHand(us[..n]), Held(ts[t]), InHand(ts[..n]), Held(x), Held(ts[n]));
    } else {
      assert us[..n] == ts[..n];
      assert InHand(ts[..n]) + Held(x) + Held(ts[n]) == InHand(ts[..n]) + Held(ts[n]) + Held(x);
    }
  }

  lemma Exchange<T>(a: multiset<T>, b: multiset<T>, c: multiset<T>, d: multiset<T>, e: multiset<T>)
    requires a + b == c + d
    ensures a + e + b == c + e + d
  {
    assert a + e + b == (a + b) + e;
  }

  lemma {:induction false} InHandSame(ts: seq<Thread>, us: seq<Thread>)
    requires |ts| == |us| && forall i :: 0 <= i < |ts| ==> Held(ts[i]) == Held(us[i])
    ensures InHand(ts) == InHand(us)
  {
    if ts != [] { InHandSame(ts[..|ts| - 1], us[..|us| - 1]); }
  }

  // ----- the invariant

  /** Some check of this round was run and failed. */
  ghost predicate Failed(s: State) { exists c :: c in s.ran && !c.ok }

  /** Some thread knows of a failure that the shared flag may not show yet. */
  ghost predicate Doubted(ts: seq<Thread>) { exists t :: 0 <= t < |ts| && ts[t].Running? && !ts[t].ok }

  ghost predicate Counted(s: State) {
    && |s.threads| >= 1
    && s.nTodo == |s.queue| + Sum(Taken, s.threads)
    && s.nIdle == Sum(Idle, s.threads)
    && s.nTotal == Sum(Inside, s.threads)
    && forall t :: 0 <= t < |s.threads| && s.threads[t].Running? ==> 1 <= s.threads[t].taken
  }

  /** Every check added is queued, in a batch, run, or skipped after a failure. */
  ghost predicate Conserved(s: State) {
    s.added == multiset(s.queue) + InHand(s.threads) + s.ran + s.skipped
  }

  ghost predicate Honest(s: State) {
    && (Failed(s) <==> !s.allOk || Doubted(s.threads))
    && (s.skipped != multiset{} ==> Failed(s))
  }

  /** The master sleeps only while others still have work. */
  ghost predicate Wakeful(s: State) {
    |s.threads| >= 1 && (s.threads[0].Asleep? ==> s.nTodo > 0 && s.queue == [])
  }

  ghost predicate AllOk(checks: multiset<Check>) { forall c :: c in checks ==> c.ok }

  /** True exactly when every check of the round was run and succeeded. */
  ghost predicate Fair(v: Verdict) {
    && (v.result <==> AllOk(v.added))
    && (v.result <==> v.ran == v.added && AllOk(v.ran))
  }

  ghost predicate Inv(s: State) {
    Counted(s) && Conserved(s) && Honest(s) && Wakeful(s) && forall v :: v in s.verdicts ==> Fair(v)
  }

  lemma InitInv(workers: nat, batchSize: nat)
    ensures Inv(Init(workers, batchSize))
  {
    var s := Init(workers, batchSize);
    SumPositive(Taken, s.threads);
    SumPositive(Idle, s.threads);
    SumPositive(Inside, s.threads);
    NothingInHand(s.threads);
  }

  lemma {:induction false} NothingInHand(ts: seq<Thread>)
    requires forall i :: 0 <= i < |ts| ==> !ts[i].Running?
    ensures InHand(ts) == multiset{}
  {
    if ts != [] { NothingInHand(ts[..|ts| - 1]); }
  }

  // ----- how the parts of the invariant move when one thread changes

  lemma SetCounts(s: State, t: nat, x: Thread)
    requires t < |s.threads|
    ensures var u := Set(s, t, x);
            && Sum(Taken, u.threads) == Sum(Taken, s.threads) - Taken(s.threads[t]) + Taken(x)
            && Sum(Idle, u.threads) == Sum(Idle, s.threads) - Idle(s.threads[t]) + Idle(x)
            && Sum(Inside, u.threads) == Sum(Inside, s.threads) - Inside(s.threads[t]) + Inside(x)
            && InHand(u.threads) + Held(s.threads[t]) == InHand(s.threads) + Held(x)
  {
    SumUpdate(Taken, s.threads, t, x);
    SumUpdate(Idle, s.threads, t, x);
    SumUpdate(Inside, s.threads, t, x);
    InHandUpdate(s.threads, t, x);
  }

  /** A change that moves no batch leaves doubts as they are. */
  lemma SetDoubts(s: State, t: nat, x: Thread)
    requires t < |s.threads|
    ensures Doubted(Set(s, t, x).threads) <==>
              (x.Running? && !x.ok)
              || exists i :: 0 <= i < |s.threads| && i != t && s.threads[i].Running? && !s.threads[i].ok
  {
    var us := Set(s, t, x).threads;
    if Doubted(us) {
      var i :| 0 <= i < |us| && us[i].Running? && !us[i].ok;
      assert i == t || s.threads[i] == us[i];
    }
    if x.Running? && !x.ok { assert us[t].Running? && !us[t].ok; }
    forall i | 0 <= i < |s.threads| && i != t && s.threads[i].Running? && !s.threads[i].ok ensures Doubted(us) {
      assert us[i] == s.threads[i];
    }
  }

  lemma QuietSet(s: State, t: nat, x: Thread)
    requires t < |s.threads| && !s.threads[t].Running? && !x.Running?
    ensures var u := Set(s, t, x);
            && Sum(Taken, u.threads) == Sum(Taken, s.threads) && InHand(u.threads) == InHand(s.threads)
            && (Doubted(u.threads) <==> Doubted(s.threads))
            && Sum(Idle, u.threads) == Sum(Idle, s.threads) - Idle(s.threads[t]) + Idle(x)
            && Sum(Inside, u.threads) == Sum(Inside, s.threads) - Inside(s.threads[t]) + Inside(x)
  {
    SetCounts(s, t, x);
    SetDoubts(s, t, x);
    SetDoubts(s, t, s.threads[t]);
    assert s.threads[t := s.threads[t]] == s.threads;
    assert InHand(s.threads) + multiset{} == InHand(s.threads);
    assert InHand(Set(s, t, x).threads) + multiset{} == InHand(Set(s, t, x).threads);
  }

  lemma JoinInv(s: State, t: nat)
    requires Inv(s) && t < |s.threads| && s.threads[t].Outside?
    ensures Inv(Join(s, t)) && Join(s, t).threads[t].Holding?
  {
    hide Sum, InHand, Doubted, Fair;
    QuietSet(s, t, Holding);
  }

  lemma ReacquireInv(s: State, t: nat)
    requires Inv(s) && t < |s.threads| && s.threads[t].Woken?
    ensures Inv(Reacquire(s, t)) && Reacquire(s, t).threads[t].Holding?
  {
    hide Sum, InHand, Doubted, Fair;
    QuietSet(s, t, Holding);
  }

  lemma WakeInv(s: State, t: nat)
    requires Inv(s) && t < |s.threads| && s.threads[t].Asleep?
    ensures Inv(Set(s, t, Woken))
  {
    hide Sum, InHand, Doubted, Fair;
    QuietSet(s, t, Woken);
  }

  /** The clean-up without its notification. */
  function Settle(s: State, t: nat): State
    requires t < |s.threads| && s.threads[t].Running?
  {
    Set(s, t, Holding).(allOk := s.allOk && s.threads[t].ok, nTodo := s.nTodo - s.threads[t].taken)
  }

  lemma SettleCounted(s: State, t: nat)
    requires Counted(s) && Conserved(s) && t < |s.threads| && s.threads[t].Running? && s.threads[t].batch == []
    ensures Counted(Settle(s, t)) && Conserved(Settle(s, t))
  {
    hide Sum, InHand;
    SetCounts(s, t, Holding);
    var u := Settle(s, t);
    assert InHand(s.threads) + multiset{} == InHand(s.threads);
    assert InHand(u.threads) + multiset{} == InHand(u.threads);
  }

  lemma SettleHonest(s: State, t: nat)
    requires Honest(s) && t < |s.threads| && s.threads[t].Running?
    ensures Honest(Settle(s, t))
  {
    hide Doubted;
    SetDoubts(s, t, Holding);
    SetDoubts(s, t, s.threads[t]);
    assert s.threads[t := s.threads[t]] == s.threads;
  }

  lemma CleanUpInv(s: State, t: nat)
    requires Inv(s) && t < |s.threads| && s.threads[t].Running? && s.threads[t].batch == []
    ensures Inv(CleanUp(s, t)) && CleanUp(s, t).threads[t].Holding?
  {
    hide Sum, InHand, Doubted, Fair;
    SettleCounted(s, t);
    SettleHonest(s, t);
    var u := Settle(s, t);
    SumNatural(u);
    if u.nTodo == 0 && t != 0 && u.threads[0].Asleep? { QuietSet(u, 0, Woken); }
  }

  lemma WaitInv(s: State, t: nat)
    requires Inv(s) && t < |s.threads| && s.threads[t].Holding? && s.queue == [] && !Returns(s, t)
    ensures Inv(Leave(s, t))
  {
    hide Sum, InHand, Doubted, Fair;
    SumNatural(s);
    QuietSet(s, t, Asleep);
  }

  lemma SumNatural(s: State)
    requires Counted(s)
    ensures s.nIdle >= 0 && s.nTotal >= 0 && s.nTodo >= |s.queue|
  {
  }

  lemma TakeInv(s: State, t: nat)
    requires Inv(s) && t < |s.threads| && s.threads[t].Holding? && s.queue != []
    ensures Inv(Leave(s, t))
  {
    hide Sum, InHand, Fair, BatchLength, FromBack;
    SumNatural(s);
    var n := BatchLength(s);
    var x := Running(FromBack(s.queue, n), n, s.allOk);
    SetCounts(s, t, x);
    SetDoubts(s, t, x);
    SetDoubts(s, t, s.threads[t]);
    assert s.threads[t := s.threads[t]] == s.threads;
    var u := Leave(s, t);
    assert InHand(u.threads) == InHand(s.threads) + multiset(FromBack(s.queue, n)) by {
      assert InHand(u.threads) + multiset{} == InHand(u.threads);
    }
  }

  /** When the master returns, the shared flag tells exactly whether every check
      added since the last verdict was run and succeeded. */
  lemma VerdictFair(s: State, t: nat)
    requires Inv(s) && Returns(s, t)
    ensures Fair(Verdict(s.allOk, s.added, s.ran))
    ensures InHand(s.threads) == multiset{} && !Doubted(s.threads)
  {
    SumPositive(Taken, s.threads);
    forall i | 0 <= i < |s.threads| ensures !s.threads[i].Running? { assert Taken(s.threads[i]) == 0; }
    NothingInHand(s.threads);
    assert s.added == s.ran + s.skipped;
    if s.allOk {
      assert s.skipped == multiset{};
      assert s.added == s.ran;
    } else {
      var c :| c in s.ran && !c.ok;
      assert c in s.added;
    }
  }

  lemma ReturnInv(s: State, t: nat)
    requires Inv(s) && t < |s.threads| && s.threads[t].Holding? && Returns(s, t)
    ensures Inv(Leave(s, t))
  {
    hide Sum, InHand, Doubted, Fair;
    SumNatural(s);
    VerdictFair(s, t);
    QuietSet(s, t, Outside);
  }

  lemma LeaveInv(s: State, t: nat)
    requires Inv(s) && t < |s.threads| && s.threads[t].Holding?
    ensures Inv(Leave(s, t))
  {
    SumNatural(s);
    if Returns(s, t) { ReturnInv(s, t); } else if s.queue == [] { WaitInv(s, t); } else { TakeInv(s, t); }
  }

  lemma RunInv(s: State, t: nat)
    requires Inv(s) && t < |s.threads| && s.threads[t].Running? && s.threads[t].batch != []
    ensures Inv(RunStep(s, t))
  {
    hide Sum, InHand, Fair, Conserved, Honest;
    var me := s.threads[t];
    var c := me.batch[0];
    var x := Running(me.batch[1..], me.taken, me.ok && c.ok);
    RunConserved(s, t);
    RunHonest(s, t);
    SetCounts(s, t, x);
  }

  lemma RunConserved(s: State, t: nat)
    requires Conserved(s) && t < |s.threads| && s.threads[t].Running? && s.threads[t].batch != []
    ensures Conserved(RunStep(s, t))
  {
    hide InHand;
    var me := s.threads[t];
    var c := me.batch[0];
    var x := Running(me.batch[1..], me.taken, me.ok && c.ok);
    InHandUpdate(s.threads, t, x);
    assert me.batch == [c] + me.batch[1..];
    assert Held(me) == multiset{c} + Held(x);
    var u := RunStep(s, t);
    Cancel(InHand(u.threads), multiset{c}, Held(x), InHand(s.threads));
    Regroup(multiset(s.queue), InHand(u.threads), multiset{c}, s.ran, s.skipped);
  }

  lemma Regroup<T>(q: multiset<T>, h: multiset<T>, c: multiset<T>, r: multiset<T>, k: multiset<T>)
    ensures q + (h + c) + r + k == q + h + (r + c) + k == q + h + r + (k + c)
  {
  }

  lemma Cancel<T>(a: multiset<T>, b: multiset<T>, c: multiset<T>, d: multiset<T>)
    requires a + (b + c) == d + c
    ensures a + b == d
  {
    assert a + (b + c) == a + b + c;
    assert a + b + c - c == a + b && d + c - c == d;
  }

  lemma RunHonest(s: State, t: nat)
    requires Honest(s) && t < |s.threads| && s.threads[t].Running? && s.threads[t].batch != []
    ensures Honest(RunStep(s, t))
  {
    hide Doubted;
    var me := s.threads[t];
    var c := me.batch[0];
    var x := Running(me.batch[1..], me.taken, me.ok && c.ok);
    SetDoubts(s, t, x);
    SetDoubts(s, t, me);
    assert s.threads[t := me] == s.threads;
    var u := RunStep(s, t);
    assert Failed(u) <==> Failed(s) || (me.ok && !c.ok) by {
      if Failed(s) { var d :| d in s.ran && !d.ok; assert d in u.ran; }
      if me.ok && !c.ok { assert c in u.ran; }
    }
  }

  lemma AddInv(s: State, checks: seq<Check>, picked: nat)
    requires Inv(s) && s.threads[0].Outside?
    ensures Inv(AddStep(s, checks, picked))
  {
    hide Sum, InHand, Doubted, Fair;
    var u := Queue(s, checks);
    assert multiset(s.queue + checks) == multiset(s.queue) + multiset(checks);
    assert Inv(u);
    if |checks| == 1 && 0 < picked < |u.threads| && u.threads[picked].Asleep? {
      QuietSet(u, picked, Woken);
    } else if |checks| > 1 {
      WakeWorkersSame(u);
    }
  }

  lemma WakeWorkersSame(s: State)
    ensures var us := WakeWorkers(s.threads);
            && Sum(Taken, us) == Sum(Taken, s.threads) && InHand(us) == InHand(s.threads)
            && Sum(Idle, us) == Sum(Idle, s.threads) && Sum(Inside, us) == Sum(Inside, s.threads)
            && (Doubted(us) <==> Doubted(s.threads))
  {
    hide Sum, InHand, Doubted;
    var us := WakeWorkers(s.threads);
    SumSame(Taken, us, s.threads);
    SumSame(Idle, us, s.threads);
    SumSame(Inside, us, s.threads);
    InHandSame(us, s.threads);
    WakeWorkersDoubts(s.threads);
  }

  lemma WakeWorkersDoubts(ts: seq<Thread>)
    ensures Doubted(WakeWorkers(ts)) <==> Doubted(ts)
  {
    var us := WakeWorkers(ts);
    assert forall i :: 0 <= i < |ts| ==> (us[i].Running? <==> ts[i].Running?) && (ts[i].Running? ==> us[i] == ts[i]);
  }

  /** Adding several checks leaves no worker asleep, and adding one wakes one that is: every other thread is as
      it was, and the checks are on top of the queue. */
  lemma AddWakes(s: State, checks: seq<Check>, picked: nat)
    requires Enabled(s, Add(checks, picked))
    ensures var u := AddStep(s, checks, picked);
            && u.queue == s.queue + checks && |u.threads| == |s.threads| && u.threads[0] == s.threads[0]
            && forall t :: 0 < t < |s.threads| ==>
                 if s.threads[t].Asleep? && (|checks| > 1 || (|checks| == 1 && t == picked)) then u.threads[t] == Woken
                 else u.threads[t] == s.threads[t]
    ensures |checks| == 1 && SomeoneWaits(s) ==> 0 < picked < |s.threads| && s.threads[picked].Asleep?
  {
  }

  /** The batch taken next: the share of each thread if all that are here or wait took one more,
      but at most the batch size and at least one. */
  lemma BatchIsShare(s: State)
    requires Inv(s) && s.queue != []
    ensures var n, threads := BatchLength(s), s.nTotal + s.nIdle + 1;
            && threads >= 1 && 1 <= n <= |s.queue|
            && (n > 1 ==> n <= s.batchSize && n * threads <= |s.queue|)
            && (n < s.batchSize ==> |s.queue| < (n + 1) * threads)
  {
    hide Counted, Conserved, Honest, Wakeful, Fair;
    SumNatural(s);
    var threads := s.nTotal + s.nIdle + 1;
    Shares(|s.queue|, threads, BatchLength(s), s.batchSize);
  }

  lemma Shares(length: nat, threads: nat, n: nat, most: nat)
    requires threads >= 1 && n == Max(1, Min(most, length / threads))
    ensures n > 1 ==> n <= most && n * threads <= length
    ensures n < most ==> length < (n + 1) * threads
  {
    DivMod(length, threads);
    if n > 1 { MulLe(n, length / threads, threads); }
    if n < most { MulLe(length / threads + 1, n + 1, threads); MulAdd(length / threads, 1, threads); }
  }

  // ----- every interleaving

  function Apply(s: State, step: Step): State
    requires Enabled(s, step)
  {
    match step
    case Add(checks, picked) => AddStep(s, checks, picked)
    case Start(t) => Leave(Join(s, t), t)
    case RunOne(t) => RunStep(s, t)
    case Finish(t) => Leave(CleanUp(s, t), t)
    case Wake(t) => Leave(Reacquire(s, t), t)
    case Spurious(t) => Set(s, t, Woken)
  }

  lemma ApplyInv(s: State, step: Step)
    requires Inv(s) && Enabled(s, step)
    ensures Inv(Apply(s, step))
  {
    hide Counted, Conserved, Honest, Wakeful, Fair;
    match step
    case Add(checks, picked) => AddInv(s, checks, picked);
    case Start(t) => JoinInv(s, t); LeaveInv(Join(s, t), t);
    case RunOne(t) => RunInv(s, t);
    case Finish(t) => CleanUpInv(s, t); LeaveInv(CleanUp(s, t), t);
    case Wake(t) => ReacquireInv(s, t); LeaveInv(Reacquire(s, t), t);
    case Spurious(t) => WakeInv(s, t);
  }

  /** A run takes steps that are enabled when they are taken. */
  ghost predicate Runs(s: State, steps: seq<Step>, last: State)
    decreases |steps|
  {
    if steps == [] then last == s
    else Enabled(s, steps[0]) && Runs(Apply(s, steps[0]), steps[1..], last)
  }

  /** In every interleaving of one master and any workers, every verdict was fair. */
  lemma {:induction false} RunsKeepInv(s: State, steps: seq<Step>, last: State)
    requires Inv(s) && Runs(s, steps, last)
    ensures Inv(last)
    decreases |steps|
  {
    if steps != [] {
      ApplyInv(s, steps[0]);
      RunsKeepInv(Apply(s, steps[0]), steps[1..], last);
    }
  }

  lemma VerdictsFair(workers: nat, batchSize: nat, steps: seq<Step>, last: State)
    requires Runs(Init(workers, batchSize), steps, last)
    ensures forall v :: v in last.verdicts ==> Fair(v)
  {
    InitInv(workers, batchSize);
    RunsKeepInv(Init(workers, batchSize), steps, last);
  }

  /** A sleeping master always has a worker that still holds a batch, so its
      wake-up is yet to come; a queue with work in it never meets a sleeping master. */
  lemma NoLostWakeUp(s: State)
    requires Inv(s) && s.threads[0].Asleep?
    ensures s.queue == [] && s.nTodo > 0
    ensures exists t :: 0 < t < |s.threads| && s.threads[t].Running?
  {
    SumPositive(Taken, s.threads);
    var t :| 0 <= t < |s.threads| && Taken(s.threads[t]) > 0;
    assert s.threads[t].Running?;
  }

  // ----- progress

  /** Between steps no thread is inside a locked region. */
  ghost predicate Calm(s: State) { forall t :: 0 <= t < |s.threads| ==> !s.threads[t].Holding? }

  lemma LeaveCalm(s: State, t: nat)
    requires t < |s.threads| && forall i :: 0 <= i < |s.threads| && i != t ==> !s.threads[i].Holding?
    ensures Calm(Leave(s, t))
  {
    hide BatchLength, FromBack;
  }

  lemma AddCalm(s: State, checks: seq<Check>, picked: nat)
    requires Calm(s)
    ensures Calm(AddStep(s, checks, picked))
  {
  }

  lemma RunCalm(s: State, t: nat)
    requires Calm(s) && t < |s.threads| && s.threads[t].Running? && s.threads[t].batch != []
    ensures Calm(RunStep(s, t))
  {
  }

  lemma FinishCalm(s: State, t: nat)
    requires Calm(s) && t < |s.threads| && s.threads[t].Running?
    ensures t < |CleanUp(s, t).threads| && Calm(Leave(CleanUp(s, t), t))
  {
    hide Leave;
    LeaveCalm(CleanUp(s, t), t);
  }

  lemma ApplyCalm(s: State, step: Step)
    requires Calm(s) && Enabled(s, step)
    ensures Calm(Apply(s, step))
  {
    hide Leave, AddStep, RunStep, CleanUp;
    match step
    case Add(checks, picked) => AddCalm(s, checks, picked);
    case Start(t) => LeaveCalm(Join(s, t), t);
    case RunOne(t) => RunCalm(s, t);
    case Finish(t) => FinishCalm(s, t);
    case Wake(t) => LeaveCalm(Reacquire(s, t), t);
    case Spurious(t) =>
  }

  lemma {:induction false} RunsKeepCalm(s: State, steps: seq<Step>, last: State)
    requires Calm(s) && Runs(s, steps, last)
    ensures Calm(last)
    decreases |steps|
  {
    hide Apply, Calm;
    if steps != [] {
      ApplyCalm(s, steps[0]);
      RunsKeepCalm(Apply(s, steps[0]), steps[1..], last);
    }
  }

  /** The master is between a call of Wait and its return. */
  predicate InRound(s: State) { |s.threads| > 0 && !s.threads[0].Outside? }

  /** In every state that can be reached, a round can go on without a wait ending for no reason. */
  lemma NeverStuck(workers: nat, batchSize: nat, steps: seq<Step>, last: State) returns (next: Step)
    requires Runs(Init(workers, batchSize), steps, last) && InRound(last)
    ensures Enabled(last, next) && (next.RunOne? || next.Finish? || next.Wake?)
  {
    InitInv(workers, batchSize);
    RunsKeepInv(Init(workers, batchSize), steps, last);
    RunsKeepCalm(Init(workers, batchSize), steps, last);
    var t: nat := 0;
    if last.threads[0].Asleep? {
      NoLostWakeUp(last);
      t :| 0 < t < |last.threads| && last.threads[t].Running?;
    }
    next := match last.threads[t]
      case Woken => Wake(t)
      case Running(batch, _, _) => if batch == [] then Finish(t) else RunOne(t)
      case _ => Wake(t);
  }

  /** What a thread still has to do, so weighted that a queued check counts for more than taking and running it. */
  function Effort(x: Thread): nat {
    match x
    case Outside => 1
    case Holding => 0
    case Running(batch, _, _) => 3 + |batch|
    case Asleep => 0
    case Woken => 2
  }

  ghost function Measure(s: State): nat { 4 * |s.queue| + Sum(Effort, s.threads) }

  lemma SetMeasure(s: State, t: nat, x: Thread)
    requires t < |s.threads|
    ensures Measure(Set(s, t, x)) == Measure(s) - Effort(s.threads[t]) + Effort(x)
  {
    SumUpdate(Effort, s.threads, t, x);
  }

  lemma LeaveMeasure(s: State, t: nat)
    requires t < |s.threads| && s.threads[t].Holding?
    ensures Measure(Leave(s, t)) <= Measure(s) + if Returns(s, t) then 1 else 0
  {
    hide Sum, BatchLength, FromBack;
    if Returns(s, t) {
      SetMeasure(s, t, Outside);
    } else if s.queue == [] {
      SetMeasure(s, t, Asleep);
    } else {
      var n := BatchLength(s);
      SetMeasure(s, t, Running(FromBack(s.queue, n), n, s.allOk));
    }
  }

  lemma CleanUpMeasure(s: State, t: nat)
    requires t < |s.threads| && s.threads[t].Running? && s.threads[t].batch == []
    ensures t < |CleanUp(s, t).threads| && CleanUp(s, t).threads[t].Holding?
    ensures Measure(CleanUp(s, t)) <= Measure(s) - if t == 0 then 3 else 1
  {
    hide Sum;
    var u := Settle(s, t);
    SetMeasure(s, t, Holding);
    if u.nTodo == 0 && t != 0 && u.threads[0].Asleep? { SetMeasure(u, 0, Woken); }
  }

  /** Within a round, every step but a wait ending for no reason comes closer to its end. */
  lemma StepsFall(s: State, step: Step)
    requires InRound(s) && Enabled(s, step) && !step.Spurious?
    ensures Measure(Apply(s, step)) < Measure(s)
  {
    hide Sum, Leave, CleanUp, Measure;
    match step
    case Add(_, _) =>
    case Start(t) =>
      JoinMeasure(s, t);
      LeaveMeasure(Join(s, t), t);
    case RunOne(t) =>
      RunMeasure(s, t);
    case Finish(t) =>
      CleanUpMeasure(s, t);
      LeaveMeasure(CleanUp(s, t), t);
    case Wake(t) =>
      ReacquireMeasure(s, t);
      LeaveMeasure(Reacquire(s, t), t);
  }

  lemma JoinMeasure(s: State, t: nat)
    requires t < |s.threads| && s.threads[t].Outside?
    ensures Measure(Join(s, t)) == Measure(s) - 1
  {
    hide Sum;
    SetMeasure(s, t, Holding);
  }

  lemma ReacquireMeasure(s: State, t: nat)
    requires t < |s.threads| && s.threads[t].Woken?
    ensures Measure(Reacquire(s, t)) == Measure(s) - 2
  {
    hide Sum;
    SetMeasure(s, t, Holding);
  }

  lemma RunMeasure(s: State, t: nat)
    requires t < |s.threads| && s.threads[t].Running? && s.threads[t].batch != []
    ensures Measure(RunStep(s, t)) == Measure(s) - 1
  {
    hide Sum;
    var me := s.threads[t];
    SetMeasure(s, t, Running(me.batch[1..], me.taken, me.ok && me.batch[0].ok));
  }

  /** A run within one round, without waits that end for no reason. */
  ghost predicate RoundRuns(s: State, steps: seq<Step>, last: State)
    decreases |steps|
  {
    if steps == [] then last == s
    else InRound(s) && Enabled(s, steps[0]) && !steps[0].Spurious? && RoundRuns(Apply(s, steps[0]), steps[1..], last)
  }

  /** However the threads are scheduled, such a run ends: the number of its steps is bounded by where it starts. */
  lemma {:induction false} RoundIsShort(s: State, steps: seq<Step>, last: State)
    requires RoundRuns(s, steps, last)
    ensures |steps| + Measure(last) <= Measure(s)
    decreases |steps|
  {
    hide Apply, Measure;
    if steps != [] {
      StepsFall(s, steps[0]);
      RoundIsShort(Apply(s, steps[0]), steps[1..], last);
    }
  }
}
