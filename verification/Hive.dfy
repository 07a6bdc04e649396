/**
 Looking for a dwarf whose hash meets the target: the dwarves of all mature creation
 transactions are cut into bins of equal size, one thread for each, with flags that let
 all threads stop once one has found a solution or the chain has moved on.
 */
module Hive {
  import opened Arithmetic

  const CHECK_EVERY: nat := 1000

  datatype Dct = Dct(txid: nat, dwarfCount: nat, mature: bool)

  datatype Range = Range(txid: nat, offset: nat, count: nat)

  /** A dwarf: its creation transaction and its number in it. */
  datatype Dwarf = Dwarf(txid: nat, number: nat)

  // ----- what is to be checked

  function Run(txid: nat, from: nat, end: nat): seq<Dwarf>
    requires from <= end
    decreases if from <= end then end - from else 0
  {
    if from == end then [] else [Dwarf(txid, from)] + Run(txid, from + 1, end)
  }

  lemma {:induction false} RunSplit(txid: nat, from: nat, mid: nat, end: nat)
    requires from <= mid <= end
    ensures Run(txid, from, end) == Run(txid, from, mid) + Run(txid, mid, end) && |Run(txid, from, mid)| == mid - from
    decreases mid - from
  {
    if from < mid { RunSplit(txid, from + 1, mid, end); }
  }

  function InRange(r: Range): seq<Dwarf> { Run(r.txid, r.offset, r.offset + r.count) }

  function InBin(bin: seq<Range>): seq<Dwarf> {
    if bin == [] then [] else InBin(bin[..|bin| - 1]) + InRange(bin[|bin| - 1])
  }

  function InBins(bins: seq<seq<Range>>): seq<Dwarf> {
    if bins == [] then [] else InBins(bins[..|bins| - 1]) + InBin(bins[|bins| - 1])
  }

  /** The dwarves of mature transactions, from a place in the list on. */
  function From(dcts: seq<Dct>, k: nat, offset: nat): seq<Dwarf>
    requires k <= |dcts| && (if k < |dcts| then offset <= dcts[k].dwarfCount else offset == 0)
    decreases |dcts| - k
  {
    if k == |dcts| then []
    else if !dcts[k].mature then From(dcts, k + 1, 0)
    else Run(dcts[k].txid, offset, dcts[k].dwarfCount) + From(dcts, k + 1, 0)
  }

  ghost predicate AllMature(dcts: seq<Dct>) { forall i :: 0 <= i < |dcts| ==> dcts[i].mature }

  ghost function Matured(dcts: seq<Dct>): seq<Dct> {
    if dcts == [] then [] else
    var last := dcts[|dcts| - 1];
    Matured(dcts[..|dcts| - 1]) + if last.mature then [last] else []
  }

  /** Keeps the mature transactions in their order, and counts their dwarves. */
  method SelectMature(potential: seq<Dct>) returns (dcts: seq<Dct>, totalDwarves: nat)
    ensures AllMature(dcts) && totalDwarves == |From(dcts, 0, 0)|
    ensures dcts == Matured(potential)
  {
    dcts, totalDwarves := [], 0;
    for i := 0 to |potential|
      invariant AllMature(dcts) && totalDwarves == |From(dcts, 0, 0)|
      invariant dcts == Matured(potential[..i])
    {
      var dct := potential[i];
      assert potential[..i + 1] == potential[..i] + [dct];
      if !dct.mature { continue; }
      FromAppend(dcts, dct, 0, 0);
      dcts := dcts + [dct];
      totalDwarves := totalDwarves + dct.dwarfCount;
    }
    assert potential[..|potential|] == potential;
  }

  lemma {:induction false} FromAppend(dcts: seq<Dct>, d: Dct, k: nat, offset: nat)
    requires k <= |dcts| && (if k < |dcts| then offset <= dcts[k].dwarfCount else offset == 0)
    requires d.mature
    ensures From(dcts + [d], k, offset) == From(dcts, k, offset) + Run(d.txid, 0, d.dwarfCount)
    ensures |Run(d.txid, 0, d.dwarfCount)| == d.dwarfCount
    decreases |dcts| - k
  {
    RunSplit(d.txid, 0, d.dwarfCount, d.dwarfCount);
    if k < |dcts| {
      FromAppend(dcts, d, k + 1, 0);
    } else {
      assert From(dcts + [d], k + 1, 0) == [];
    }
  }

  // ----- binning

  lemma BinMore(bin: seq<Range>, r: Range)
    ensures InBin(bin + [r]) == InBin(bin) + InRange(r) && |InRange(r)| == r.count
  {
    assert (bin + [r])[..|bin|] == bin;
    RunSplit(r.txid, r.offset, r.offset + r.count, r.offset + r.count);
  }

  lemma BinsMore(bins: seq<seq<Range>>, bin: seq<Range>)
    ensures InBins(bins + [bin]) == InBins(bins) + InBin(bin)
  {
    assert (bins + [bin])[..|bins|] == bins;
  }

  /** Fills one bin: with all that is left, or with exactly as many as fit. */
  method FillBin(dcts: seq<Dct>, start: nat, startOffset: nat, perBin: nat)
    returns (bin: seq<Range>, k: nat, offset: nat)
    requires start < |dcts| && dcts[start].mature && startOffset <= dcts[start].dwarfCount
    ensures k <= |dcts| && (if k < |dcts| then dcts[k].mature && offset < dcts[k].dwarfCount else offset == 0)
    ensures InBin(bin) + From(dcts, k, offset) == From(dcts, start, startOffset)
    ensures |InBin(bin)| <= perBin && (k < |dcts| ==> |InBin(bin)| == perBin)
    ensures perBin > 0 && From(dcts, start, startOffset) != [] ==> InBin(bin) != []
  {
    hide InBin, InRange, Run, From;
    bin, k, offset := [], start, startOffset;
    BinNone();
    FromEnd(dcts);
    var inBin := 0;
    while k < |dcts|
      invariant k <= |dcts| && (if k < |dcts| then dcts[k].mature && offset <= dcts[k].dwarfCount else offset == 0)
      invariant InBin(bin) + From(dcts, k, offset) == From(dcts, start, startOffset)
      invariant |InBin(bin)| == inBin <= perBin
      decreases |dcts| - k
    {
      var dct := dcts[k];
      var spaceLeft := perBin - inBin;
      if dct.dwarfCount - offset <= spaceLeft {
        BinTakes(bin, dcts, k, offset, dct.dwarfCount - offset);
        FromStep(dcts, k);
        bin := bin + [Range(dct.txid, offset, dct.dwarfCount - offset)];
        inBin := inBin + (dct.dwarfCount - offset);
        offset := 0;
        k := k + 1;
        ghost var next := k;
        while k < |dcts| && !dcts[k].mature
          invariant next <= k <= |dcts| && From(dcts, k, 0) == From(dcts, next, 0)
        {
          FromSkip(dcts, k);
          k := k + 1;
        }
      } else {
        BinTakes(bin, dcts, k, offset, spaceLeft);
        bin := bin + [Range(dct.txid, offset, spaceLeft)];
        offset := offset + spaceLeft;
        break;
      }
    }
  }

  /** The next dwarves of a transaction move from what is left to the bin. */
  lemma BinTakes(bin: seq<Range>, dcts: seq<Dct>, k: nat, offset: nat, count: nat)
    requires k < |dcts| && dcts[k].mature && offset + count <= dcts[k].dwarfCount
    ensures var next := bin + [Range(dcts[k].txid, offset, count)];
      && InBin(next) + From(dcts, k, offset + count) == InBin(bin) + From(dcts, k, offset)
      && |InBin(next)| == |InBin(bin)| + count
  {
    hide InBin, Run;
    BinMore(bin, Range(dcts[k].txid, offset, count));
    RunSplit(dcts[k].txid, offset, offset + count, dcts[k].dwarfCount);
  }

  lemma FromStep(dcts: seq<Dct>, k: nat)
    requires k < |dcts|
    ensures From(dcts, k, dcts[k].dwarfCount) == From(dcts, k + 1, 0)
  {
  }

  lemma FromSkip(dcts: seq<Dct>, k: nat)
    requires k < |dcts| && !dcts[k].mature
    ensures From(dcts, k, 0) == From(dcts, k + 1, 0)
  {
  }

  lemma FromEnd(dcts: seq<Dct>)
    ensures From(dcts, |dcts|, 0) == []
  {
  }

  lemma BinNone()
    ensures InBin([]) == []
  {
  }

  /** Bins that hold every dwarf of every transaction, in order and once; all but the last of one size. */
  method MakeBins(dcts: seq<Dct>, perBin: nat) returns (bins: seq<seq<Range>>)
    requires dcts != [] && dcts[0].mature && From(dcts, 0, 0) != [] && perBin > 0
    ensures InBins(bins) == From(dcts, 0, 0)
    ensures forall i :: 0 <= i < |bins| - 1 ==> |InBin(bins[i])| == perBin
    ensures bins != [] && 0 < |InBin(bins[|bins| - 1])| <= perBin
  {
    hide InBin, InBins, From;
    bins := [];
    BinsNone();
    var k: nat, offset: nat := 0, 0;
    while k < |dcts|
      invariant k <= |dcts| && (if k < |dcts| then dcts[k].mature && offset <= dcts[k].dwarfCount else offset == 0)
      invariant k < |dcts| ==> From(dcts, k, offset) != []
      invariant InBins(bins) + From(dcts, k, offset) == From(dcts, 0, 0)
      invariant forall i :: 0 <= i < |bins| ==> 0 < |InBin(bins[i])| <= perBin
      invariant forall i :: 0 <= i < |bins| - (if k < |dcts| then 0 else 1) ==> |InBin(bins[i])| == perBin
      invariant k == |dcts| ==> bins != []
      decreases |From(dcts, k, offset)|
    {
      var bin;
      ghost var rest := From(dcts, k, offset);
      bin, k, offset := FillBin(dcts, k, offset, perBin);
      BinsMore(bins, bin);
      bins := bins + [bin];
      FromPositive(dcts, k, offset);
    }
    FromEnd(dcts);
  }

  lemma BinsNone()
    ensures InBins([]) == []
  {
  }

  lemma FromPositive(dcts: seq<Dct>, k: nat, offset: nat)
    requires k <= |dcts| && (if k < |dcts| then dcts[k].mature && offset < dcts[k].dwarfCount else offset == 0)
    ensures k < |dcts| ==> From(dcts, k, offset) != []
  {
  }

  lemma {:induction false} FullBins(bins: seq<seq<Range>>, perBin: nat)
    requires forall i :: 0 <= i < |bins| ==> |InBin(bins[i])| == perBin
    ensures |InBins(bins)| == |bins| * perBin
  {
    hide InBin;
    if bins != [] {
      FullBins(bins[..|bins| - 1], perBin);
      MulAdd(|bins| - 1, 1, perBin);
    }
  }

  /** When bins times threads are enough for all dwarves, there are no more bins than threads. */
  lemma BinCount(bins: seq<seq<Range>>, perBin: nat, threads: nat)
    requires bins != [] && 0 < |InBin(bins[|bins| - 1])|
    requires forall i :: 0 <= i < |bins| - 1 ==> |InBin(bins[i])| == perBin
    requires |InBins(bins)| <= threads * perBin
    ensures |bins| <= threads
  {
    hide InBin;
    var n := |bins| - 1;
    FullBins(bins[..n], perBin);
    if threads <= n { MulLe(threads, n, perBin); }
  }

  // ----- checking the bins

  /** One dwarf of one range, as a thread sees it. */
  datatype Item = Item(range: Range, number: nat)

  function ItemsOf(r: Range, from: nat): seq<Item>
    requires r.offset <= from <= r.offset + r.count
    decreases r.offset + r.count - from
  {
    if from == r.offset + r.count then [] else [Item(r, from)] + ItemsOf(r, from + 1)
  }

  /** The order in which a thread goes through its bin. */
  function Work(bin: seq<Range>): seq<Item> {
    if bin == [] then [] else Work(bin[..|bin| - 1]) + ItemsOf(bin[|bin| - 1], bin[|bin| - 1].offset)
  }

  function DwarfOf(i: Item): Dwarf { Dwarf(i.range.txid, i.number) }

  lemma {:induction false} ItemsAre(r: Range, from: nat)
    requires r.offset <= from <= r.offset + r.count
    ensures |ItemsOf(r, from)| == |Run(r.txid, from, r.offset + r.count)|
    ensures forall k :: 0 <= k < |ItemsOf(r, from)| ==>
      DwarfOf(ItemsOf(r, from)[k]) == Run(r.txid, from, r.offset + r.count)[k]
    ensures forall k :: 0 <= k < |ItemsOf(r, from)| ==>
      ItemsOf(r, from)[k].range == r && from <= ItemsOf(r, from)[k].number < r.offset + r.count
    decreases r.offset + r.count - from
  {
    if from < r.offset + r.count { ItemsAre(r, from + 1); }
  }

  /** A thread goes through exactly the dwarves of its bin. */
  lemma {:induction false} WorkIs(bin: seq<Range>)
    ensures |Work(bin)| == |InBin(bin)|
    ensures forall k :: 0 <= k < |Work(bin)| ==> DwarfOf(Work(bin)[k]) == InBin(bin)[k]
    ensures forall k :: 0 <= k < |Work(bin)| ==>
      var i := Work(bin)[k]; i.range in bin && i.range.offset <= i.number < i.range.offset + i.range.count
  {
    hide Run, ItemsOf;
    if bin != [] {
      var n := |bin| - 1;
      WorkIs(bin[..n]);
      ItemsAre(bin[n], bin[n].offset);
    }
  }

  /** Where a thread stands: before looking at the flags, before hashing an item, writing out a
      solution under the lock, or at its end, with the reason. */
  datatype Thread =
    | Looking(pos: nat)
    | Hashing(pos: nat)
    | WritingRange(item: Item)
    | WritingNumber(item: Item)
    | RanOut
    | Told
    | Solved

  datatype Lock = Free | HeldBy(thread: nat)

  datatype State = State(
    threads: seq<Thread>, solutionFound: bool, earlyAbort: bool, lock: Lock, solvingRange: Range, solvingDwarf: nat)

  datatype Setup = Setup(work: seq<seq<Item>>, meets: Dwarf -> bool, watch: bool)

  /** A thread looks at the flags before every thousandth item, the first included. */
  function Before(setup: Setup, t: nat, pos: nat): Thread
    requires t < |setup.work|
  {
    if pos >= |setup.work[t]| then RanOut else if pos % CHECK_EVERY == 0 then Looking(pos) else Hashing(pos)
  }

  ghost predicate Initial(setup: Setup, s: State) {
    && |s.threads| == |setup.work| && !s.solutionFound && !s.earlyAbort && s.lock.Free?
    && forall t :: 0 <= t < |s.threads| ==> s.threads[t] == Before(setup, t, 0)
  }

  datatype Step = Look(t: nat) | Hash(t: nat) | WriteRange(t: nat) | WriteNumber(t: nat) | Abort

  ghost predicate Enabled(setup: Setup, s: State, step: Step) {
    |s.threads| == |setup.work| &&
    match step
    case Look(t) => t < |s.threads| && s.threads[t].Looking?
    case Hash(t) => t < |s.threads| && s.threads[t].Hashing? && s.threads[t].pos < |setup.work[t]|
                    && (setup.meets(DwarfOf(setup.work[t][s.threads[t].pos])) ==> s.lock.Free?)
    case WriteRange(t) => t < |s.threads| && s.threads[t].WritingRange?
    case WriteNumber(t) => t < |s.threads| && s.threads[t].WritingNumber?
    case Abort => setup.watch
  }

  ghost function Apply(setup: Setup, s: State, step: Step): State
    requires Enabled(setup, s, step)
  {
    match step
    case Look(t) =>
      s.(threads := s.threads[t := if s.solutionFound || s.earlyAbort then Told else Hashing(s.threads[t].pos)])
    case Hash(t) =>
      var item := setup.work[t][s.threads[t].pos];
      if setup.meets(DwarfOf(item)) then
        s.(threads := s.threads[t := WritingRange(item)], solutionFound := true, lock := HeldBy(t))
      else s.(threads := s.threads[t := Before(setup, t, s.threads[t].pos + 1)])
    case WriteRange(t) =>
      s.(threads := s.threads[t := WritingNumber(s.threads[t].item)], solvingRange := s.threads[t].item.range)
    case WriteNumber(t) =>
      s.(threads := s.threads[t := Solved], solvingDwarf := s.threads[t].item.number, lock := Free)
    case Abort => s.(earlyAbort := true)
  }

  /** No item before the position meets the target. */
  ghost predicate Missed(setup: Setup, t: nat, pos: nat)
    requires t < |setup.work|
  {
    pos <= |setup.work[t]| && forall k :: 0 <= k < pos ==> !setup.meets(DwarfOf(setup.work[t][k]))
  }

  /** A solution is an item of some bin that meets the target. */
  ghost predicate Genuine(setup: Setup, item: Item) {
    setup.meets(DwarfOf(item))
    && exists t, k :: 0 <= t < |setup.work| && 0 <= k < |setup.work[t]| && setup.work[t][k] == item
  }

  ghost predicate ThreadOk(setup: Setup, s: State, t: nat)
    requires t < |s.threads| == |setup.work|
  {
    match s.threads[t]
    case Looking(pos) => Missed(setup, t, pos) && pos < |setup.work[t]|
    case Hashing(pos) => Missed(setup, t, pos) && pos < |setup.work[t]|
    case WritingRange(item) => s.solutionFound && s.lock == HeldBy(t) && Genuine(setup, item)
    case WritingNumber(item) =>
      s.solutionFound && s.lock == HeldBy(t) && Genuine(setup, item) && s.solvingRange == item.range
    case RanOut => Missed(setup, t, |setup.work[t]|)
    case Told => s.solutionFound || s.earlyAbort
    case Solved => s.solutionFound
  }

  ghost predicate Inv(setup: Setup, s: State) {
    && |s.threads| == |setup.work|
    && (forall t :: 0 <= t < |s.threads| ==> ThreadOk(setup, s, t))
    && (s.lock.Free? && s.solutionFound ==> Genuine(setup, Item(s.solvingRange, s.solvingDwarf)))
    && (s.lock.HeldBy? ==>
          && s.lock.thread < |s.threads|
          && (s.threads[s.lock.thread].WritingRange? || s.threads[s.lock.thread].WritingNumber?))
    && (s.earlyAbort ==> setup.watch)
  }

  lemma InitialInv(setup: Setup, s: State)
    requires Initial(setup, s)
    ensures Inv(setup, s)
  {
  }

  /** Every step of every thread, and the abort, keep it. */
  lemma StepInv(setup: Setup, s: State, step: Step)
    requires Inv(setup, s) && Enabled(setup, s, step)
    ensures Inv(setup, Apply(setup, s, step))
  {
    hide Genuine;
    var n := Apply(setup, s, step);
    forall t | 0 <= t < |n.threads| ensures ThreadOk(setup, n, t) {
      assert ThreadOk(setup, s, t);
      if step.Hash? && step.t == t { HashOk(setup, s, t); }
      if !step.Abort? && step.t != t { assert ThreadOk(setup, s, step.t); }
    }
    if !step.Abort? { assert ThreadOk(setup, s, step.t); }
    if step.WriteNumber? {
      var item := s.threads[step.t].item;
      assert item == Item(item.range, item.number);
    }
  }

  lemma HashOk(setup: Setup, s: State, t: nat)
    requires Inv(setup, s) && Enabled(setup, s, Hash(t))
    ensures ThreadOk(setup, Apply(setup, s, Hash(t)), t)
  {
    assert ThreadOk(setup, s, t);
    var pos := s.threads[t].pos;
    var item := setup.work[t][pos];
    if setup.meets(DwarfOf(item)) { assert Genuine(setup, item); }
  }

  ghost predicate Runs(setup: Setup, states: seq<State>, steps: seq<Step>) {
    && |states| == |steps| + 1 && Initial(setup, states[0])
    && forall i :: 0 <= i < |steps| ==>
         Enabled(setup, states[i], steps[i]) && states[i + 1] == Apply(setup, states[i], steps[i])
  }

  lemma {:induction false} RunsKeepInv(setup: Setup, states: seq<State>, steps: seq<Step>, k: nat)
    requires Runs(setup, states, steps) && k < |states|
    ensures Inv(setup, states[k])
    decreases k
  {
    hide Inv, Enabled, Apply;
    if k == 0 {
      InitialInv(setup, states[0]);
    } else {
      RunsKeepInv(setup, states, steps, k - 1);
      StepInv(setup, states[k - 1], steps[k - 1]);
    }
  }

  ghost predicate Joined(s: State) {
    forall t :: 0 <= t < |s.threads| ==> s.threads[t].RanOut? || s.threads[t].Told? || s.threads[t].Solved?
  }

  /** After all threads were joined: with no abort and no solution, every dwarf of every bin was
      hashed and missed; with a solution, the stored range and number are one dwarf that meets the target. */
  lemma Verdict(setup: Setup, states: seq<State>, steps: seq<Step>, k: nat)
    requires Runs(setup, states, steps) && k < |states| && Joined(states[k])
    ensures var s := states[k];
      && (!s.earlyAbort && !s.solutionFound ==> forall t :: 0 <= t < |setup.work| ==> Missed(setup, t, |setup.work[t]|))
      && (s.solutionFound ==> Genuine(setup, Item(s.solvingRange, s.solvingDwarf)))
      && (!setup.watch ==> !s.earlyAbort)
  {
    hide Missed, Genuine;
    RunsKeepInv(setup, states, steps, k);
    var s := states[k];
    forall t | 0 <= t < |s.threads| && !s.earlyAbort && !s.solutionFound ensures Missed(setup, t, |setup.work[t]|) {
      assert ThreadOk(setup, s, t);
    }
  }

  /** The whole search.  A dwarf of a mature transaction meets the target only if the run says so, or was aborted. */
  lemma NothingMissed(dcts: seq<Dct>, bins: seq<seq<Range>>, setup: Setup, states: seq<State>, steps: seq<Step>,
                      k: nat, d: Dwarf)
    requires InBins(bins) == From(dcts, 0, 0) && |setup.work| == |bins|
    requires forall t :: 0 <= t < |bins| ==> setup.work[t] == Work(bins[t])
    requires Runs(setup, states, steps) && k < |states| && Joined(states[k])
    requires !states[k].earlyAbort && !states[k].solutionFound && d in From(dcts, 0, 0)
    ensures !setup.meets(d)
  {
    hide From, InBin, Runs, Joined, Work;
    Verdict(setup, states, steps, k);
    var t := BinOf(bins, d);
    assert Missed(setup, t, |setup.work[t]|);
    WorkIs(bins[t]);
    var j :| 0 <= j < |InBin(bins[t])| && InBin(bins[t])[j] == d;
    assert DwarfOf(setup.work[t][j]) == d;
  }

  /** Its companion.  What is stored is a range of some bin and a number in it: a dwarf of a mature
      transaction that meets the target. */
  lemma SolutionIsReal(dcts: seq<Dct>, bins: seq<seq<Range>>, setup: Setup, states: seq<State>, steps: seq<Step>,
                       k: nat)
    requires InBins(bins) == From(dcts, 0, 0) && |setup.work| == |bins|
    requires forall t :: 0 <= t < |bins| ==> setup.work[t] == Work(bins[t])
    requires Runs(setup, states, steps) && k < |states| && Joined(states[k]) && states[k].solutionFound
    ensures var (r, n) := (states[k].solvingRange, states[k].solvingDwarf);
      && Dwarf(r.txid, n) in From(dcts, 0, 0) && setup.meets(Dwarf(r.txid, n))
      && r.offset <= n < r.offset + r.count && exists t :: 0 <= t < |bins| && r in bins[t]
  {
    hide From, InBin, InBins, Runs, Joined, Work;
    Verdict(setup, states, steps, k);
    var item := Item(states[k].solvingRange, states[k].solvingDwarf);
    var t, j :| 0 <= t < |setup.work| && 0 <= j < |setup.work[t]| && setup.work[t][j] == item;
    WorkIs(bins[t]);
    assert DwarfOf(item) == InBin(bins[t])[j];
    InSomeBin(bins, t, DwarfOf(item));
  }

  /** Without an abort, a solution is found exactly when there is one. */
  lemma FoundIfAny(dcts: seq<Dct>, bins: seq<seq<Range>>, setup: Setup, states: seq<State>, steps: seq<Step>, k: nat)
    requires InBins(bins) == From(dcts, 0, 0) && |setup.work| == |bins|
    requires forall t :: 0 <= t < |bins| ==> setup.work[t] == Work(bins[t])
    requires Runs(setup, states, steps) && k < |states| && Joined(states[k]) && !states[k].earlyAbort
    ensures states[k].solutionFound <==> exists d :: d in From(dcts, 0, 0) && setup.meets(d)
  {
    hide From, InBins, Runs, Joined, Work;
    if states[k].solutionFound {
      SolutionIsReal(dcts, bins, setup, states, steps, k);
    } else {
      forall d | d in From(dcts, 0, 0) ensures !setup.meets(d) {
        NothingMissed(dcts, bins, setup, states, steps, k, d);
      }
    }
  }

  lemma {:induction false} InSomeBin(bins: seq<seq<Range>>, t: nat, d: Dwarf)
    requires t < |bins| && d in InBin(bins[t])
    ensures d in InBins(bins)
    decreases |bins|
  {
    hide InBin;
    var n := |bins| - 1;
    if t < n { InSomeBin(bins[..n], t, d); }
  }

  lemma {:induction false} BinOf(bins: seq<seq<Range>>, d: Dwarf) returns (t: nat)
    requires d in InBins(bins)
    ensures t < |bins| && d in InBin(bins[t])
  {
    hide InBin;
    var n := |bins| - 1;
    if d in InBin(bins[n]) { t := n; } else { t := BinOf(bins[..n], d); }
  }
}
