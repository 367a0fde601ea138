/** The simulation of trace buffers. Cycles are numbered from 1; a line of the control trace stands for
    a run of cycles in which one instance goes through successive states. */
module TraceSimulation {
  import opened Powers

  datatype Cycle = Cycle(instanceNum: int, stateNum: int)

  // ----- Runs ----------------------------------------------------------------------------------------

  /** Cycle k continues the run of cycle k - 1. */
  predicate Continues(cycles: seq<Cycle>, k: nat)
    requires 1 < k <= |cycles|
  {
    cycles[k - 1].instanceNum == cycles[k - 2].instanceNum && cycles[k - 1].stateNum == cycles[k - 2].stateNum + 1
  }

  /** Where line j of a trace ends: the first cycle of the next line. */
  function EndOf(cycles: seq<Cycle>, trace: seq<nat>, j: nat): nat
    requires j < |trace|
  {
    if j + 1 < |trace| then trace[j + 1] else |cycles| + 1
  }

  /** Line j is a run of at most max cycles. */
  predicate LegalRun(cycles: seq<Cycle>, trace: seq<nat>, max: nat, j: nat)
    requires j < |trace|
  {
    && 1 <= trace[j] < EndOf(cycles, trace, j) <= |cycles| + 1
    && EndOf(cycles, trace, j) - trace[j] <= max
    && forall k :: trace[j] < k < EndOf(cycles, trace, j) ==> Continues(cycles, k)
  }

  /** The trace cuts the cycles into legal runs. */
  predicate Splits(cycles: seq<Cycle>, trace: seq<nat>, max: nat) {
    && (if cycles == [] then trace == [] else trace != [] && trace[0] == 1)
    && forall j :: 0 <= j < |trace| ==> LegalRun(cycles, trace, max, j)
  }

  /** Line j could not have been part of the line before it. */
  predicate NeedsLine(cycles: seq<Cycle>, trace: seq<nat>, max: nat, j: nat)
    requires 0 < j < |trace|
  {
    1 < trace[j] <= |cycles| && (!Continues(cycles, trace[j]) || trace[j] == trace[j - 1] + max)
  }

  predicate Greedy(cycles: seq<Cycle>, trace: seq<nat>, max: nat) {
    && Splits(cycles, trace, max)
    && forall j :: 0 < j < |trace| ==> NeedsLine(cycles, trace, max, j)
  }

  // ----- Optimality ------------------------------------------------------------------------------------

  /** Line j of any other split starts no later than line j of the greedy one. */
  lemma {:induction false} StaysAhead(cycles: seq<Cycle>, g: seq<nat>, t: seq<nat>, max: nat, j: nat)
    requires Greedy(cycles, g, max) && Splits(cycles, t, max) && j < |g|
    ensures j < |t| && t[j] <= g[j]
  {
    if j > 0 {
      StaysAhead(cycles, g, t, max, j - 1);
      assert LegalRun(cycles, g, max, j) && LegalRun(cycles, g, max, j - 1) && NeedsLine(cycles, g, max, j);
      assert LegalRun(cycles, t, max, j - 1);
    }
  }

  /** No split into legal runs has fewer lines than the greedy one. */
  lemma {:induction false} GreedyIsOptimal(cycles: seq<Cycle>, g: seq<nat>, t: seq<nat>, max: nat)
    requires Greedy(cycles, g, max) && Splits(cycles, t, max)
    ensures |g| <= |t|
  {
    if g != [] {
      StaysAhead(cycles, g, t, max, |g| - 1);
    }
  }

  // ----- Losslessness ------------------------------------------------------------------------------------

  /** The line that holds cycle k, looking back from line j. */
  function LineOf(trace: seq<nat>, k: nat, j: nat): (line: nat)
    requires j < |trace| && trace[0] <= k
    ensures line <= j && trace[line] <= k && forall i :: line < i <= j ==> k < trace[i]
  {
    if trace[j] <= k then j else LineOf(trace, k, j - 1)
  }

  /** What the recorded lines tell about cycle k: the instance of its line, and the state as many steps
      on as the cycle is from the start of the line. */
  function Recovered(trace: seq<nat>, recorded: seq<Cycle>, k: nat): Cycle
    requires |trace| == |recorded| > 0 && trace[0] <= k
  {
    var line := LineOf(trace, k, |trace| - 1);
    Cycle(recorded[line].instanceNum, recorded[line].stateNum + (k - trace[line]))
  }

  function Recorded(cycles: seq<Cycle>, trace: seq<nat>): seq<Cycle>
    requires forall j :: 0 <= j < |trace| ==> 1 <= trace[j] <= |cycles|
  {
    seq(|trace|, j requires 0 <= j < |trace| => cycles[trace[j] - 1])
  }

  lemma {:induction false} AlongRun(cycles: seq<Cycle>, trace: seq<nat>, max: nat, line: nat, k: nat)
    requires line < |trace| && LegalRun(cycles, trace, max, line) && trace[line] <= k < EndOf(cycles, trace, line)
    ensures var first := cycles[trace[line] - 1];
            cycles[k - 1] == Cycle(first.instanceNum, first.stateNum + (k - trace[line]))
  {
    if k > trace[line] {
      AlongRun(cycles, trace, max, line, k - 1);
      assert Continues(cycles, k);
    }
  }

  /** Any split into legal runs is lossless. */
  lemma {:induction false} Lossless(cycles: seq<Cycle>, trace: seq<nat>, max: nat, k: nat)
    requires Splits(cycles, trace, max) && 1 <= k <= |cycles|
    ensures forall j :: 0 <= j < |trace| ==> 1 <= trace[j] <= |cycles|
    ensures Recovered(trace, Recorded(cycles, trace), k) == cycles[k - 1]
  {
    forall j | 0 <= j < |trace| ensures 1 <= trace[j] <= |cycles| {
      assert LegalRun(cycles, trace, max, j);
    }
    var line := LineOf(trace, k, |trace| - 1);
    AlongRun(cycles, trace, max, line, k);
  }

  // ----- What a buffer still holds -----------------------------------------------------------------------

  /** How many entries were recorded after cycle k. */
  function Since(records: seq<nat>, k: int): nat {
    if records == [] then 0
    else Since(records[..|records| - 1], k) + if records[|records| - 1] > k then 1 else 0
  }

  predicate Ordered(records: seq<nat>) {
    forall i, j :: 0 <= i <= j < |records| ==> records[i] <= records[j]
  }

  /** Lines 217-221, 231-235 and 251-255: how many cycles back a buffer of this depth reaches. */
  function Reach(records: seq<nat>, depth: nat, now: nat): int {
    if |records| > depth then now - records[|records| - (depth + 1)] else now
  }

  lemma {:induction false} SinceNone(records: seq<nat>, k: int)
    requires forall i :: 0 <= i < |records| ==> records[i] <= k
    ensures Since(records, k) == 0
  {
    if records != [] {
      SinceNone(records[..|records| - 1], k);
    }
  }

  lemma {:induction false} SinceBound(records: seq<nat>, k: int)
    ensures Since(records, k) <= |records|
  {
    if records != [] {
      SinceBound(records[..|records| - 1], k);
    }
  }

  /** Where the entries after cycle k begin. */
  lemma {:induction false} SinceSuffix(records: seq<nat>, k: int, depth: nat)
    requires Ordered(records) && depth < |records|
    ensures Since(records, k) <= depth <==> records[|records| - (depth + 1)] <= k
    decreases |records|
  {
    var last := |records| - 1;
    if depth == 0 {
      if records[last] <= k {
        SinceNone(records, k);
      }
    } else {
      SinceSuffix(records[..last], k, depth - 1);
      if records[last] <= k {
        SinceNone(records, k);
      }
    }
  }

  /** The reach is exact: the entries of the last w cycles are all among the last `depth` entries exactly
      when w is at most the reach. */
  lemma {:induction false} ReachIsExact(records: seq<nat>, depth: nat, now: nat, w: nat)
    requires Ordered(records) && w <= now
    ensures Since(records, now - w) <= depth <==> w <= Reach(records, depth, now)
  {
    if |records| > depth {
      SinceSuffix(records, now - w, depth);
    } else {
      SinceBound(records, now - w);
    }
  }

  // ----- The simulation ----------------------------------------------------------------------------------

  /** What the database says about the state of a cycle. */
  datatype State = State(storeA: bool, storeB: bool, regsA: bool, regsB: bool, tracedWidth: nat)

  datatype Design = Design(sequenceBits: nat, ctrlBufDepth: nat, memBufDepth: nat, regsBufEnabled: bool, regsBufDepth: nat)

  /** Lines 224-229: the entries cycle k puts into the memory buffer. */
  function MemCount(states: Cycle -> State, cycles: seq<Cycle>, k: nat): nat
    requires 1 <= k <= |cycles|
  {
    var state := states(cycles[k - 1]);
    (if state.storeA then 1 else 0) + if state.storeB then 1 else 0
  }

  /** Lines 238-249: state 0 is not recorded again while the instance stays the same. */
  predicate RecordsRegs(cycles: seq<Cycle>, k: nat)
    requires 1 <= k <= |cycles|
  {
    !(cycles[k - 1].stateNum == 0 && k > 1 && cycles[k - 2].instanceNum == cycles[k - 1].instanceNum)
  }

  function RegsCount(states: Cycle -> State, cycles: seq<Cycle>, k: nat): nat
    requires 1 <= k <= |cycles|
  {
    var state := states(cycles[k - 1]);
    if !RecordsRegs(cycles, k) then 0 else (if state.regsA then 1 else 0) + if state.regsB then 1 else 0
  }

  /** k, as often as cycle k puts an entry into the buffer. */
  function Entries(regs: bool, states: Cycle -> State, cycles: seq<Cycle>, n: nat): seq<nat>
    requires n <= |cycles|
  {
    if n == 0 then []
    else
      Entries(regs, states, cycles, n - 1)
      + seq(if regs then RegsCount(states, cycles, n) else MemCount(states, cycles, n), _ => n)
  }

  lemma {:induction false} EntriesOrdered(regs: bool, states: Cycle -> State, cycles: seq<Cycle>, n: nat)
    requires n <= |cycles|
    ensures var e := Entries(regs, states, cycles, n);
            Ordered(e) && forall i :: 0 <= i < |e| ==> 1 <= e[i] <= n
  {
    if n > 0 {
      EntriesOrdered(regs, states, cycles, n - 1);
    }
  }

  // ----- What is recorded when -------------------------------------------------------------------------------

  function InstanceAt(cycles: seq<Cycle>, k: nat): int
    requires 1 <= k <= |cycles|
  {
    cycles[k - 1].instanceNum
  }

  /** Cycles a to b are a longest stretch in one instance. */
  predicate Stay(cycles: seq<Cycle>, a: nat, b: nat) {
    && 1 <= a <= b <= |cycles|
    && (forall k :: a <= k <= b ==> InstanceAt(cycles, k) == InstanceAt(cycles, a))
    && (a > 1 ==> InstanceAt(cycles, a - 1) != InstanceAt(cycles, a))
    && (b < |cycles| ==> InstanceAt(cycles, b + 1) != InstanceAt(cycles, a))
  }

  /** Every cycle belongs to a stay. */
  lemma {:induction false} InSomeStay(cycles: seq<Cycle>, k: nat) returns (a: nat, b: nat)
    requires 1 <= k <= |cycles|
    ensures Stay(cycles, a, b) && a <= k <= b
  {
    a, b := k, k;
    while a > 1 && InstanceAt(cycles, a - 1) == InstanceAt(cycles, k)
      invariant 1 <= a <= k && forall j :: a <= j <= k ==> InstanceAt(cycles, j) == InstanceAt(cycles, k)
    {
      a := a - 1;
    }
    while b < |cycles| && InstanceAt(cycles, b + 1) == InstanceAt(cycles, k)
      invariant k <= b <= |cycles| && forall j :: a <= j <= b ==> InstanceAt(cycles, j) == InstanceAt(cycles, k)
    {
      b := b + 1;
    }
  }

  function Occurrences(trace: seq<nat>, k: nat): nat {
    multiset(trace)[k]
  }

  /** The enabled ports of two. */
  function Ports(a: bool, b: bool): nat {
    (if a then 1 else 0) + if b then 1 else 0
  }

  predicate WithinCycles(trace: seq<nat>, n: nat) {
    Ordered(trace) && forall i :: 0 <= i < |trace| ==> 1 <= trace[i] <= n
  }

  /** The memory trace has each cycle once for each of its stores, in order, and nothing else. */
  ghost predicate MemRecorded(states: Cycle -> State, cycles: seq<Cycle>, trace: seq<nat>) {
    && WithinCycles(trace, |cycles|)
    && forall k: nat :: 1 <= k <= |cycles| ==>
         Occurrences(trace, k) == Ports(states(cycles[k - 1]).storeA, states(cycles[k - 1]).storeB)
  }

  /** In each stay, the register trace has state 0 at the first cycle only, and every other cycle, once
      for each enabled port, in order, and nothing else. */
  ghost predicate RegsRecorded(states: Cycle -> State, cycles: seq<Cycle>, trace: seq<nat>) {
    && WithinCycles(trace, |cycles|)
    && forall a: nat, b: nat, k: nat :: Stay(cycles, a, b) && a <= k <= b ==>
         Occurrences(trace, k) ==
         if cycles[k - 1].stateNum == 0 && k > a then 0
         else Ports(states(cycles[k - 1]).regsA, states(cycles[k - 1]).regsB)
  }

  lemma {:induction false} Repeated(count: nat, n: nat, k: nat)
    ensures multiset(seq(count, _ => n))[k] == if k == n then count else 0
    decreases count
  {
    var all := seq(count, _ => n);
    if count > 0 {
      Repeated(count - 1, n, k);
      assert all == seq(count - 1, _ => n) + [n];
    } else {
      assert all == [];
    }
  }

  /** How often cycle k is in a trace. */
  lemma {:induction false} EntriesCount(regs: bool, states: Cycle -> State, cycles: seq<Cycle>, n: nat, k: nat)
    requires n <= |cycles|
    ensures multiset(Entries(regs, states, cycles, n))[k] ==
            if k < 1 || k > n then 0 else if regs then RegsCount(states, cycles, k) else MemCount(states, cycles, k)
  {
    hide RegsCount, MemCount;
    if n > 0 {
      EntriesCount(regs, states, cycles, n - 1, k);
      Repeated(if regs then RegsCount(states, cycles, n) else MemCount(states, cycles, n), n, k);
    }
  }

  lemma {:induction false} TracesAreRecords(states: Cycle -> State, cycles: seq<Cycle>)
    ensures MemRecorded(states, cycles, Entries(false, states, cycles, |cycles|))
    ensures RegsRecorded(states, cycles, Entries(true, states, cycles, |cycles|))
  {
    hide Entries;
    var n := |cycles|;
    EntriesOrdered(false, states, cycles, n);
    EntriesOrdered(true, states, cycles, n);
    forall k: nat | 1 <= k <= n
      ensures Occurrences(Entries(false, states, cycles, n), k) ==
              Ports(states(cycles[k - 1]).storeA, states(cycles[k - 1]).storeB)
    {
      EntriesCount(false, states, cycles, n, k);
    }
    forall a: nat, b: nat, k: nat | Stay(cycles, a, b) && a <= k <= b
      ensures Occurrences(Entries(true, states, cycles, n), k) ==
              if cycles[k - 1].stateNum == 0 && k > a then 0
              else Ports(states(cycles[k - 1]).regsA, states(cycles[k - 1]).regsB)
    {
      EntriesCount(true, states, cycles, n, k);
      StayRecords(cycles, a, b, k);
    }
  }

  lemma StayRecords(cycles: seq<Cycle>, a: nat, b: nat, k: nat)
    requires Stay(cycles, a, b) && a <= k <= b
    ensures RecordsRegs(cycles, k) <==> !(cycles[k - 1].stateNum == 0 && k > a)
  {
    if k > a {
      assert InstanceAt(cycles, k - 1) == InstanceAt(cycles, a) == InstanceAt(cycles, k);
    }
  }

  // ----- The control buffer --------------------------------------------------------------------------------

  /** The lines of the last w of now cycles are among the last `depth` lines. */
  predicate Holds(trace: seq<nat>, depth: nat, now: nat, w: nat)
    requires trace != [] && trace[0] == 1 && w <= now
  {
    w > 0 ==> LineOf(trace, now - w + 1, |trace| - 1) + depth >= |trace|
  }

  lemma {:induction false} StartsIncrease(cycles: seq<Cycle>, trace: seq<nat>, max: nat, i: nat, j: nat)
    requires Splits(cycles, trace, max) && i <= j < |trace|
    ensures trace[i] + (j - i) <= trace[j]
    decreases j - i
  {
    if i < j {
      StartsIncrease(cycles, trace, max, i, j - 1);
      assert LegalRun(cycles, trace, max, j - 1);
    }
  }

  /** The control buffer reaches back to the end of the run that was dropped last. */
  lemma {:induction false} HoldsUntil(cycles: seq<Cycle>, trace: seq<nat>, max: nat, depth: nat, w: nat)
    requires Splits(cycles, trace, max) && depth < |trace| && w <= |cycles|
    ensures Holds(trace, depth, |cycles|, w) <==> w <= |cycles| + 1 - EndOf(cycles, trace, |trace| - depth - 1)
  {
    var e := |trace| - depth - 1;
    assert LegalRun(cycles, trace, max, e);
    if w > 0 {
      var k := |cycles| - w + 1;
      var line := LineOf(trace, k, |trace| - 1);
      if line > e {
        StartsIncrease(cycles, trace, max, e + 1, line);
      }
    }
  }

  /** The replay length counted for the control buffer is right exactly when the dropped run had a single
      cycle: otherwise cycles of that run are counted although their line is gone. */
  lemma {:induction false} ControlReach(cycles: seq<Cycle>, trace: seq<nat>, max: nat, depth: nat)
    requires Splits(cycles, trace, max) && depth < |trace|
    ensures var e := |trace| - depth - 1;
            (forall w: nat :: w <= |cycles| ==> (Holds(trace, depth, |cycles|, w) <==> w <= Reach(trace, depth, |cycles|)))
            <==> EndOf(cycles, trace, e) - trace[e] == 1
  {
    var e, n := |trace| - depth - 1, |cycles|;
    assert LegalRun(cycles, trace, max, e);
    forall w: nat | w <= n ensures Holds(trace, depth, n, w) <==> w <= n + 1 - EndOf(cycles, trace, e) {
      HoldsUntil(cycles, trace, max, depth, w);
    }
    var reach: nat := Reach(trace, depth, n);
    assert Holds(trace, depth, n, reach) <==> reach <= n + 1 - EndOf(cycles, trace, e);
  }

  /** A run of two cycles, then another cycle, and room for one line: two cycles are counted although the
      line of the first two is gone. */
  lemma {:induction false} ControlReachFails()
    ensures var cycles, trace := [Cycle(0, 0), Cycle(0, 1), Cycle(1, 0)], [1, 3];
            && Greedy(cycles, trace, 2)
            && Reach(trace, 1, 3) == 2 && !Holds(trace, 1, 3, 2)
  {
    var cycles, trace := [Cycle(0, 0), Cycle(0, 1), Cycle(1, 0)], [1, 3];
    assert !Continues(cycles, 3) && Continues(cycles, 2);
    assert LegalRun(cycles, trace, 2, 0) && LegalRun(cycles, trace, 2, 1);
    assert LineOf(trace, 2, 1) == LineOf(trace, 2, 0) == 0;
  }

  // ----- The replay lengths --------------------------------------------------------------------------------

  /** The control trace after the first n cycles. */
  function Lines(cycles: seq<Cycle>, max: nat, n: nat): seq<nat>
    requires n <= |cycles|
  {
    if n == 0 then []
    else
      var trace := Lines(cycles, max, n - 1);
      if n > 1 && Continues(cycles, n) && trace != [] && n - trace[|trace| - 1] < max then trace else trace + [n]
  }

  function Trace(regs: bool, design: Design, states: Cycle -> State, cycles: seq<Cycle>, n: nat): seq<nat>
    requires n <= |cycles|
  {
    if regs && !design.regsBufEnabled then [] else Entries(regs, states, cycles, n)
  }

  /** A memory buffer of depth 0 is taken to reach back to the start. */
  function MemReach(design: Design, states: Cycle -> State, cycles: seq<Cycle>, n: nat): int
    requires n <= |cycles|
  {
    if design.memBufDepth == 0 then n else Reach(Entries(false, states, cycles, n), design.memBufDepth, n)
  }

  /** How far back each buffer reaches after n cycles. */
  function Available(design: Design, states: Cycle -> State, cycles: seq<Cycle>, n: nat): (a: seq<int>)
    requires n <= |cycles|
    ensures a != []
  {
    [Reach(Lines(cycles, Pow2(design.sequenceBits), n), design.ctrlBufDepth, n), MemReach(design, states, cycles, n)]
    + if design.regsBufEnabled then [Reach(Entries(true, states, cycles, n), design.regsBufDepth, n)] else []
  }

  /** Some buffer has dropped an entry. */
  predicate Saturated(design: Design, states: Cycle -> State, cycles: seq<Cycle>, n: nat)
    requires n <= |cycles|
  {
    || |Lines(cycles, Pow2(design.sequenceBits), n)| > design.ctrlBufDepth
    || (|Entries(false, states, cycles, n)| > design.memBufDepth && design.memBufDepth > 0)
    || (design.regsBufEnabled && |Entries(true, states, cycles, n)| > design.regsBufDepth)
  }

  /** Buffers do not become unsaturated, so the flag of the loop tells whether one is saturated now. */
  lemma {:induction false} StaysSaturated(design: Design, states: Cycle -> State, cycles: seq<Cycle>, n: nat)
    requires 0 < n <= |cycles| && Saturated(design, states, cycles, n - 1)
    ensures Saturated(design, states, cycles, n)
  {
  }

  function Least(s: seq<int>): (m: int)
    requires s != []
    ensures m in s && forall k :: 0 <= k < |s| ==> m <= s[k]
  {
    if |s| == 1 then s[0]
    else
      var m := Least(s[..|s| - 1]);
      if s[|s| - 1] < m then s[|s| - 1] else m
  }

  /** The replay length after each of the first n cycles after which a buffer is saturated. */
  function History(design: Design, states: Cycle -> State, cycles: seq<Cycle>, n: nat): seq<int>
    requires n <= |cycles|
  {
    if n == 0 then []
    else
      History(design, states, cycles, n - 1)
      + if Saturated(design, states, cycles, n) then [Least(Available(design, states, cycles, n))] else []
  }

  /** What an embedded logic analyzer of this depth would offer after the same cycles. */
  function ElaHistory(design: Design, states: Cycle -> State, cycles: seq<Cycle>, depth: nat, n: nat): seq<nat>
    requires n <= |cycles|
  {
    if n == 0 then []
    else
      ElaHistory(design, states, cycles, depth, n - 1)
      + if Saturated(design, states, cycles, n) then [if n < depth then n else depth] else []
  }

  /** A buffer is saturated exactly when not all cycles are available. */
  lemma {:induction false} SaturatedIsShort(design: Design, states: Cycle -> State, cycles: seq<Cycle>, n: nat)
    requires 0 < n <= |cycles|
    ensures Saturated(design, states, cycles, n) <==> Least(Available(design, states, cycles, n)) < n
  {
    hide Entries, Lines;
    LinesStartAtOne(cycles, Pow2(design.sequenceBits), n);
    EntriesOrdered(false, states, cycles, n);
    EntriesOrdered(true, states, cycles, n);
    var a := Available(design, states, cycles, n);
    assert Least(a) < n <==> a[0] < n || a[1] < n || (design.regsBufEnabled && a[2] < n);
  }

  lemma {:induction false} LinesStartAtOne(cycles: seq<Cycle>, max: nat, n: nat)
    requires n <= |cycles|
    ensures forall i :: 0 <= i < |Lines(cycles, max, n)| ==> 1 <= Lines(cycles, max, n)[i] <= n
  {
    if n > 0 {
      LinesStartAtOne(cycles, max, n - 1);
    }
  }

  /** Without saturation there is no history. */
  lemma {:induction false} NoHistory(design: Design, states: Cycle -> State, cycles: seq<Cycle>, depth: nat, n: nat)
    requires n <= |cycles| && forall k :: 0 < k <= n ==> !Saturated(design, states, cycles, k)
    ensures History(design, states, cycles, n) == [] && ElaHistory(design, states, cycles, depth, n) == []
  {
    if n > 0 {
      NoHistory(design, states, cycles, depth, n - 1);
    }
  }

  /** From the first saturated cycle on, both histories have one entry per cycle: the cycles that all
      buffers are said to offer, and the cycles that a buffer of the given depth would. */
  lemma {:induction false} HistoryFrom(design: Design, states: Cycle -> State, cycles: seq<Cycle>, depth: nat, f: nat, n: nat)
    requires 0 < f <= n <= |cycles| && Saturated(design, states, cycles, f)
    requires forall k :: 0 < k < f ==> !Saturated(design, states, cycles, k)
    ensures var h, e := History(design, states, cycles, n), ElaHistory(design, states, cycles, depth, n);
            && |h| == |e| == n - f + 1
            && forall i :: 0 <= i < |h| ==>
                 h[i] == Least(Available(design, states, cycles, f + i)) && e[i] == if f + i < depth then f + i else depth
    ensures Saturated(design, states, cycles, n)
    decreases n
  {
    hide Available, Saturated, Least, History, ElaHistory;
    HistoryStep(design, states, cycles, depth, n);
    if n == f {
      NoHistory(design, states, cycles, depth, n - 1);
    } else {
      HistoryFrom(design, states, cycles, depth, f, n - 1);
      StaysSaturated(design, states, cycles, n);
    }
  }

  /** For as many cycles as the replay length says, the memory and register buffers hold all entries, and
      so does the control buffer if the run it dropped last had a single cycle; and no longer time would
      do for all buffers at once. */
  lemma {:induction false} ReplayLength(design: Design, states: Cycle -> State, cycles: seq<Cycle>, n: nat, w: nat)
    requires 0 < n <= |cycles| && w <= n
    requires var lines := Lines(cycles, Pow2(design.sequenceBits), n);
             |lines| > design.ctrlBufDepth ==>
               var e := |lines| - design.ctrlBufDepth - 1; EndOf(cycles[..n], lines, e) - lines[e] == 1
    ensures var lines := Lines(cycles, Pow2(design.sequenceBits), n);
            && lines != [] && lines[0] == 1
            && (w <= Least(Available(design, states, cycles, n)) <==>
                && Holds(lines, design.ctrlBufDepth, n, w)
                && (design.memBufDepth > 0 ==> Since(Entries(false, states, cycles, n), n - w) <= design.memBufDepth)
                && (design.regsBufEnabled ==> Since(Entries(true, states, cycles, n), n - w) <= design.regsBufDepth))
  {
    hide Entries, Lines;
    var max := Pow2(design.sequenceBits);
    var lines := Lines(cycles, max, n);
    LinesAreGreedy(cycles, max, n);
    EntriesOrdered(false, states, cycles, n);
    EntriesOrdered(true, states, cycles, n);
    ReachIsExact(Entries(false, states, cycles, n), design.memBufDepth, n, w);
    ReachIsExact(Entries(true, states, cycles, n), design.regsBufDepth, n, w);
    if |lines| > design.ctrlBufDepth {
      ControlReach(cycles[..n], lines, max, design.ctrlBufDepth);
    }
    var a := Available(design, states, cycles, n);
    assert w <= Least(a) <==> w <= a[0] && w <= a[1] && (design.regsBufEnabled ==> w <= a[2]);
  }

  lemma {:induction false} LinesAreGreedy(cycles: seq<Cycle>, max: nat, n: nat)
    requires n <= |cycles| && max > 0
    ensures Greedy(cycles[..n], Lines(cycles, max, n), max)
  {
    if n > 0 {
      var before, trace, c := cycles[..n - 1], Lines(cycles, max, n - 1), cycles[n - 1];
      LinesAreGreedy(cycles, max, n - 1);
      assert before + [c] == cycles[..n];
      if n > 1 {
        assert LegalRun(before, trace, max, |trace| - 1);
        if Continues(cycles, n) && n - trace[|trace| - 1] < max {
          GreedyContinues(before, trace, max, c);
        } else {
          GreedyBreaks(before, trace, max, c);
        }
      } else {
        GreedyBreaks(before, trace, max, c);
      }
    }
  }

  // ----- The loop ------------------------------------------------------------------------------------------

  lemma {:induction false} GreedyContinues(cycles: seq<Cycle>, trace: seq<nat>, max: nat, c: Cycle)
    requires Greedy(cycles, trace, max) && cycles != []
    requires var last := cycles[|cycles| - 1]; c.instanceNum == last.instanceNum && c.stateNum == last.stateNum + 1
    requires |cycles| + 1 - trace[|trace| - 1] < max
    ensures Greedy(cycles + [c], trace, max)
  {
    var cycles' := cycles + [c];
    forall j | 0 <= j < |trace| ensures LegalRun(cycles', trace, max, j) {
      assert LegalRun(cycles, trace, max, j);
      forall k | trace[j] < k < EndOf(cycles', trace, j) ensures Continues(cycles', k) {
        assert k <= |cycles| ==> Continues(cycles, k);
      }
    }
    forall j | 0 < j < |trace| ensures NeedsLine(cycles', trace, max, j) {
      assert NeedsLine(cycles, trace, max, j);
    }
  }

  lemma {:induction false} GreedyBreaks(cycles: seq<Cycle>, trace: seq<nat>, max: nat, c: Cycle)
    requires Greedy(cycles, trace, max) && max > 0
    requires cycles != [] ==>
               var last := cycles[|cycles| - 1];
               c.instanceNum != last.instanceNum || c.stateNum != last.stateNum + 1
               || |cycles| + 1 - trace[|trace| - 1] == max
    ensures Greedy(cycles + [c], trace + [|cycles| + 1], max)
  {
    var cycles', trace' := cycles + [c], trace + [|cycles| + 1];
    forall j | 0 <= j < |trace'| ensures LegalRun(cycles', trace', max, j) {
      if j < |trace| {
        assert LegalRun(cycles, trace, max, j) && EndOf(cycles', trace', j) == EndOf(cycles, trace, j);
        forall k | trace[j] < k < EndOf(cycles, trace, j) ensures Continues(cycles', k) {
          assert Continues(cycles, k);
        }
      }
    }
    forall j | 0 < j < |trace'| ensures NeedsLine(cycles', trace', max, j) {
      if j < |trace| {
        assert NeedsLine(cycles, trace, max, j);
      }
    }
  }

  /** Lines 210-215: one cycle of the control trace. */
  method RecordControl(design: Design, c: Cycle, last: Cycle, cycleNum: nat, sequenceCnt: nat, ctrlTrace: seq<nat>,
                       ctrlLinesUsed: nat, ghost cycles: seq<Cycle>)
    returns (ctrlTrace': seq<nat>, ctrlLinesUsed': nat, sequenceCnt': nat)
    requires |cycles| + 1 == cycleNum && Greedy(cycles, ctrlTrace, Pow2(design.sequenceBits))
    requires cycles != [] ==> last == cycles[|cycles| - 1] && sequenceCnt == |cycles| - ctrlTrace[|ctrlTrace| - 1]
    ensures Greedy(cycles + [c], ctrlTrace', Pow2(design.sequenceBits))
    ensures ctrlTrace' ==
            if cycleNum > 1 && Continues(cycles + [c], cycleNum) && ctrlTrace != []
               && cycleNum - ctrlTrace[|ctrlTrace| - 1] < Pow2(design.sequenceBits)
            then ctrlTrace else ctrlTrace + [cycleNum]
    ensures ctrlTrace' != [] && sequenceCnt' == cycleNum - ctrlTrace'[|ctrlTrace'| - 1]
    ensures ctrlLinesUsed' - ctrlLinesUsed == |ctrlTrace'| - |ctrlTrace|
  {
    ghost var max := Pow2(design.sequenceBits);
    if cycleNum > 1 && c.instanceNum == last.instanceNum && c.stateNum == last.stateNum + 1
       && sequenceCnt + 1 < Pow2(design.sequenceBits)
    {
      GreedyContinues(cycles, ctrlTrace, max, c);
      ctrlTrace', ctrlLinesUsed', sequenceCnt' := ctrlTrace, ctrlLinesUsed, sequenceCnt + 1;
    } else {
      if cycles != [] {
        assert LegalRun(cycles, ctrlTrace, max, |ctrlTrace| - 1);
      }
      GreedyBreaks(cycles, ctrlTrace, max, c);
      ctrlTrace', ctrlLinesUsed', sequenceCnt' := ctrlTrace + [cycleNum], ctrlLinesUsed + 1, 0;
    }
  }

  /** Lines 224-229 and 244-249: an entry for each of two ports. */
  method RecordPorts(portA: bool, portB: bool, cycleNum: nat, trace: seq<nat>, linesUsed: nat)
    returns (trace': seq<nat>, linesUsed': nat)
    ensures trace' == trace + seq((if portA then 1 else 0) + if portB then 1 else 0, _ => cycleNum)
    ensures linesUsed' - linesUsed == |trace'| - |trace|
  {
    trace', linesUsed' := trace, linesUsed;
    if portA {
      linesUsed' := linesUsed' + 1;
      trace' := trace' + [cycleNum];
    }
    if portB {
      linesUsed' := linesUsed' + 1;
      trace' := trace' + [cycleNum];
    }
  }

  /** Lines 223-235. */
  method RecordMemory(design: Design, state: State, cycleNum: nat, memTrace: seq<nat>, memLinesUsed: nat,
                      ghost states: Cycle -> State, ghost cycles: seq<Cycle>)
    returns (memTrace': seq<nat>, memLinesUsed': nat, memReach: int)
    requires 1 <= cycleNum <= |cycles| && state == states(cycles[cycleNum - 1]) && memLinesUsed == |memTrace|
    requires memTrace == Entries(false, states, cycles, cycleNum - 1)
    ensures memTrace' == Entries(false, states, cycles, cycleNum) && memLinesUsed' == |memTrace'|
    ensures memReach == MemReach(design, states, cycles, cycleNum)
  {
    memTrace', memLinesUsed' := RecordPorts(state.storeA, state.storeB, cycleNum, memTrace, memLinesUsed);
    if |memTrace'| > design.memBufDepth && design.memBufDepth > 0 {
      memReach := cycleNum - memTrace'[|memTrace'| - (design.memBufDepth + 1)];
    } else {
      memReach := cycleNum;
    }
  }

  /** Lines 238-255. */
  method RecordRegs(design: Design, state: State, c: Cycle, last: Cycle, cycleNum: nat, regsTrace: seq<nat>,
                    regsLinesUsed: nat, ghost states: Cycle -> State, ghost cycles: seq<Cycle>)
    returns (regsTrace': seq<nat>, regsLinesUsed': nat, regsReach: int)
    requires 1 <= cycleNum <= |cycles| && c == cycles[cycleNum - 1] && state == states(c)
    requires cycleNum > 1 ==> last == cycles[cycleNum - 2]
    requires regsLinesUsed == |regsTrace| && regsTrace == Entries(true, states, cycles, cycleNum - 1)
    ensures regsTrace' == Entries(true, states, cycles, cycleNum) && regsLinesUsed' == |regsTrace'|
    ensures regsReach == Reach(Entries(true, states, cycles, cycleNum), design.regsBufDepth, cycleNum)
  {
    regsTrace', regsLinesUsed' := regsTrace, regsLinesUsed;
    if !(c.stateNum == 0 && cycleNum > 1 && last.instanceNum == c.instanceNum) {
      regsTrace', regsLinesUsed' := RecordPorts(state.regsA, state.regsB, cycleNum, regsTrace, regsLinesUsed);
    }
    if |regsTrace'| > design.regsBufDepth {
      regsReach := cycleNum - regsTrace'[|regsTrace'| - (design.regsBufDepth + 1)];
    } else {
      regsReach := cycleNum;
    }
  }

  /** Lines 257-264: one entry of the two histories. */
  method RecordReplay(bufferSaturated: bool, cyclesAvailable: seq<int>, cycleNum: nat, elaDepth: nat,
                      replay: seq<int>, replayEla: seq<nat>)
    returns (replay': seq<int>, replayEla': seq<nat>)
    requires cyclesAvailable != []
    ensures replay' == replay + if bufferSaturated then [Least(cyclesAvailable)] else []
    ensures replayEla' == replayEla + if bufferSaturated then [if cycleNum < elaDepth then cycleNum else elaDepth] else []
  {
    replay', replayEla' := replay, replayEla;
    if bufferSaturated {
      var replayLength := cyclesAvailable[0];
      for k := 1 to |cyclesAvailable|
        invariant replayLength == Least(cyclesAvailable[..k])
      {
        assert cyclesAvailable[..k + 1][..k] == cyclesAvailable[..k];
        if cyclesAvailable[k] < replayLength {
          replayLength := cyclesAvailable[k];
        }
      }
      assert cyclesAvailable[..|cyclesAvailable|] == cyclesAvailable;
      replay' := replay + [replayLength];
      if cycleNum < elaDepth {
        replayEla' := replayEla + [cycleNum];
      } else {
        replayEla' := replayEla + [elaDepth];
      }
    }
  }

  /** What the loop has computed after n cycles. */
  datatype Traces = Traces(ctrl: seq<nat>, ctrlLines: nat, mem: seq<nat>, memLines: nat, regs: seq<nat>, regsLines: nat,
                           replay: seq<int>, replayEla: seq<nat>)

  function Simulated(design: Design, states: Cycle -> State, cycles: seq<Cycle>, elaDepth: nat, n: nat): Traces
    requires n <= |cycles|
  {
    var ctrl, mem, regs := Lines(cycles, Pow2(design.sequenceBits), n), Trace(false, design, states, cycles, n),
                           Trace(true, design, states, cycles, n);
    Traces(ctrl, |ctrl|, mem, |mem|, regs, |regs|,
           History(design, states, cycles, n), ElaHistory(design, states, cycles, elaDepth, n))
  }

  /** `simulateTrace`: the three traces, the number of lines of each, and the replay lengths. The control
      trace is the greedy split of the cycles. */
  method SimulateTrace(design: Design, states: Cycle -> State, cycles: seq<Cycle>, elaDepth: nat) returns (t: Traces)
    ensures t == Simulated(design, states, cycles, elaDepth, |cycles|)
    ensures Greedy(cycles, t.ctrl, Pow2(design.sequenceBits))
    ensures MemRecorded(states, cycles, t.mem)
    ensures if design.regsBufEnabled then RegsRecorded(states, cycles, t.regs) else t.regs == []
    ensures t.ctrlLines == |t.ctrl| && t.memLines == |t.mem| && t.regsLines == |t.regs|
  {
    hide Greedy, Entries, Lines, History, ElaHistory, Least, MemRecorded, RegsRecorded;
    TracesAreRecords(states, cycles);
    NothingYet(design, states, cycles, elaDepth);
    t := Traces([], 0, [], 0, [], 0, [], []);
    var cycleNum, sequenceCnt, last, bufferSaturated := 0, 0, Cycle(0, 0), false;
    while cycleNum < |cycles|
      invariant 0 <= cycleNum <= |cycles| && t == Simulated(design, states, cycles, elaDepth, cycleNum)
      invariant Greedy(cycles[..cycleNum], t.ctrl, Pow2(design.sequenceBits))
      invariant bufferSaturated <==> cycleNum > 0 && Saturated(design, states, cycles, cycleNum)
      invariant cycleNum > 0 ==>
                  last == cycles[cycleNum - 1] && t.ctrl != [] && sequenceCnt == cycleNum - t.ctrl[|t.ctrl| - 1]
    {
      cycleNum := cycleNum + 1;
      t, sequenceCnt, bufferSaturated :=
        OneCycle(design, states, cycles, elaDepth, cycleNum, last, sequenceCnt, bufferSaturated, t);
      last := cycles[cycleNum - 1];
    }
    assert cycles[..cycleNum] == cycles;
  }

  /** Lines 217-221. */
  method ControlReaches(design: Design, ctrlTrace: seq<nat>, cycleNum: nat) returns (reach: int)
    ensures reach == Reach(ctrlTrace, design.ctrlBufDepth, cycleNum)
  {
    if |ctrlTrace| > design.ctrlBufDepth {
      reach := cycleNum - ctrlTrace[|ctrlTrace| - (design.ctrlBufDepth + 1)];
    } else {
      reach := cycleNum;
    }
  }

  /** The body of the loop. */
  method OneCycle(design: Design, states: Cycle -> State, cycles: seq<Cycle>, elaDepth: nat, cycleNum: nat, last: Cycle,
                  sequenceCnt: nat, saturated: bool, t: Traces)
    returns (t': Traces, sequenceCnt': nat, saturated': bool)
    requires 0 < cycleNum <= |cycles| && t == Simulated(design, states, cycles, elaDepth, cycleNum - 1)
    requires Greedy(cycles[..cycleNum - 1], t.ctrl, Pow2(design.sequenceBits))
    requires saturated <==> cycleNum > 1 && Saturated(design, states, cycles, cycleNum - 1)
    requires cycleNum > 1 ==>
               last == cycles[cycleNum - 2] && t.ctrl != [] && sequenceCnt == cycleNum - 1 - t.ctrl[|t.ctrl| - 1]
    ensures t' == Simulated(design, states, cycles, elaDepth, cycleNum)
    ensures Greedy(cycles[..cycleNum], t'.ctrl, Pow2(design.sequenceBits))
    ensures saturated' <==> Saturated(design, states, cycles, cycleNum)
    ensures t'.ctrl != [] && sequenceCnt' == cycleNum - t'.ctrl[|t'.ctrl| - 1]
  {
    hide Greedy, Entries, Lines, History, ElaHistory, Least, Reach, MemReach;
    var c := cycles[cycleNum - 1];
    ghost var before := cycles[..cycleNum - 1];
    assert before + [c] == cycles[..cycleNum];
    saturated' := saturated;
    var ctrlTrace, ctrlLinesUsed, ctrlReach, memTrace, memLinesUsed, memReach;
    ctrlTrace, ctrlLinesUsed, sequenceCnt' :=
      RecordControl(design, c, last, cycleNum, sequenceCnt, t.ctrl, t.ctrlLines, before);
    LinesStep(cycles, Pow2(design.sequenceBits), cycleNum);
    ctrlReach := ControlReaches(design, ctrlTrace, cycleNum);
    if |ctrlTrace| > design.ctrlBufDepth {
      saturated' := true;
    }
    memTrace, memLinesUsed, memReach := RecordMemory(design, states(c), cycleNum, t.mem, t.memLines, states, cycles);
    if |memTrace| > design.memBufDepth && design.memBufDepth > 0 {
      saturated' := true;
    }
    var cyclesAvailable := [ctrlReach, memReach];
    var regsTrace, regsLinesUsed, regsReach := t.regs, t.regsLines, 0;
    if design.regsBufEnabled {
      regsTrace, regsLinesUsed, regsReach :=
        RecordRegs(design, states(c), c, last, cycleNum, t.regs, t.regsLines, states, cycles);
      if |regsTrace| > design.regsBufDepth {
        saturated' := true;
      }
      cyclesAvailable := cyclesAvailable + [regsReach];
    }
    if saturated {
      StaysSaturated(design, states, cycles, cycleNum);
    }
    assert cyclesAvailable == Available(design, states, cycles, cycleNum);
    var replay, replayEla := RecordReplay(saturated', cyclesAvailable, cycleNum, elaDepth, t.replay, t.replayEla);
    HistoryStep(design, states, cycles, elaDepth, cycleNum);
    t' := Traces(ctrlTrace, ctrlLinesUsed, memTrace, memLinesUsed, regsTrace, regsLinesUsed, replay, replayEla);
  }

  lemma {:induction false} LinesStep(cycles: seq<Cycle>, max: nat, n: nat)
    requires 0 < n <= |cycles|
    ensures var trace := Lines(cycles, max, n - 1);
            Lines(cycles, max, n) ==
            if n > 1 && Continues(cycles[..n], n) && trace != [] && n - trace[|trace| - 1] < max then trace else trace + [n]
  {
  }

  lemma {:induction false} HistoryStep(design: Design, states: Cycle -> State, cycles: seq<Cycle>, elaDepth: nat, n: nat)
    requires 0 < n <= |cycles|
    ensures var more := Saturated(design, states, cycles, n);
            && History(design, states, cycles, n) ==
               History(design, states, cycles, n - 1) + (if more then [Least(Available(design, states, cycles, n))] else [])
            && ElaHistory(design, states, cycles, elaDepth, n) ==
               ElaHistory(design, states, cycles, elaDepth, n - 1) + if more then [if n < elaDepth then n else elaDepth] else []
  {
  }

  lemma NothingYet(design: Design, states: Cycle -> State, cycles: seq<Cycle>, elaDepth: nat)
    ensures Simulated(design, states, cycles, elaDepth, 0) == Traces([], 0, [], 0, [], 0, [], [])
    ensures Greedy(cycles[..0], [], Pow2(design.sequenceBits))
  {
  }
}
