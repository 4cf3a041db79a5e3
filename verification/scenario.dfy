/** The default run of the interface: the reference string
    7,0,1,2,0,3,0,4,2,3,0,3,2,1,2,0,1,7,0,1 over three frames. FIFO faults 15
    times and the optimal policy 9 times, so the comparison table reports hit
    rates of 25% and 55%.

    The run is replayed on a slim tally (resident pages and the two counters),
    which the simulator's step is shown to follow for FIFO and the optimal
    policy whatever the input. */
module Scenario {
  import opened Pages
  import opened Simulator
  import opened SimulatorRules
  import opened Live
  import opened Educational
  import opened EducationalRules

  /** The reference string the interface starts with. */
  const DefaultRefs: seq<Page> := [7, 0, 1, 2, 0, 3, 0, 4, 2, 3, 0, 3, 2, 1, 2, 0, 1, 7, 0, 1]

  /** Neither FIFO nor the optimal policy draws a random number. */
  const NoDraws: seq<real> := seq(20, _ => 0.0)

  /** The part of a simulator state the two policies act on. */
  datatype Tally = Tally(memory: seq<Page>, faults: nat, hits: nat)

  function TallyOf(st: State): Tally {
    Tally(st.memory, st.faults, st.hits)
  }

  /** One FIFO iteration on a tally: a hit counts, a free frame takes the page,
      a full memory drops its first page and appends the new one. */
  function FifoNext(t: Tally, p: Page, frameCount: nat): (r: Tally)
    requires frameCount >= 1 && |t.memory| <= frameCount
  {
    if p in t.memory then t.(hits := t.hits + 1)
    else if |t.memory| < frameCount then Tally(t.memory + [p], t.faults + 1, t.hits)
    else Tally(t.memory[1..] + [p], t.faults + 1, t.hits)
  }

  /** One optimal iteration on a tally: a full memory writes the page into
      the slot of the resident page requested farthest ahead. */
  function OptimalNext(t: Tally, pages: seq<Page>, i: nat, frameCount: nat): (r: Tally)
    requires i < |pages| && frameCount >= 1 && |t.memory| <= frameCount
  {
    var p := pages[i];
    if p in t.memory then t.(hits := t.hits + 1)
    else if |t.memory| < frameCount then Tally(t.memory + [p], t.faults + 1, t.hits)
    else Tally(t.memory[OptimalVictim(t.memory, pages, i + 1) := p], t.faults + 1, t.hits)
  }

  /** The simulator's FIFO iteration moves the tally as `FifoNext` does. */
  lemma FifoFollowsTally(pages: seq<Page>, frameCount: nat, i: nat, u: real, st: State)
    requires i < |pages| && 0.0 <= u < 1.0 && Valid(st, frameCount)
    ensures TallyOf(Step(Fifo, pages, frameCount, i, u, st)) == FifoNext(TallyOf(st), pages[i], frameCount)
  {
    if pages[i] !in st.memory && |st.memory| >= frameCount {
      EvictHeadAppend(Fifo, pages, frameCount, i, u, st);
    }
  }

  /** The simulator's optimal iteration moves the tally as `OptimalNext` does. */
  lemma OptimalFollowsTally(pages: seq<Page>, frameCount: nat, i: nat, u: real, st: State)
    requires i < |pages| && 0.0 <= u < 1.0 && Valid(st, frameCount)
    ensures TallyOf(Step(Optimal, pages, frameCount, i, u, st)) == OptimalNext(TallyOf(st), pages, i, frameCount)
  {
  }

  /** A tally run: FIFO or the optimal policy over the first `n` references. */
  function TallyRun(alg: Policy, pages: seq<Page>, frameCount: nat, n: nat): (t: Tally)
    requires alg == Fifo || alg == Optimal
    requires frameCount >= 1 && n <= |pages|
    ensures |t.memory| <= frameCount && t.faults + t.hits == n
  {
    if n == 0 then Tally([], 0, 0)
    else
      var prev := TallyRun(alg, pages, frameCount, n - 1);
      var r := if alg == Fifo then FifoNext(prev, pages[n - 1], frameCount)
               else OptimalNext(prev, pages, n - 1, frameCount);
      assert |r.memory| <= frameCount;
      r
  }

  /** Along a linked simulator trace, the tallies follow the tally run. */
  lemma {:induction false} TraceFollowsTally(alg: Policy, pages: seq<Page>, frameCount: nat, draws: seq<real>,
                                             t: seq<State>, n: nat)
    requires alg == Fifo || alg == Optimal
    requires frameCount >= 1 && |t| == |pages| + 1 && n <= |pages|
    requires t[0] == Init(frameCount)
    requires forall k :: 0 <= k < |pages| ==> Linked(alg, pages, frameCount, draws, t, k)
    ensures TallyOf(t[n]) == TallyRun(alg, pages, frameCount, n)
    decreases n
  {
    if n > 0 {
      TraceFollowsTally(alg, pages, frameCount, draws, t, n - 1);
      assert Linked(alg, pages, frameCount, draws, t, n - 1);
      if alg == Fifo {
        FifoFollowsTally(pages, frameCount, n - 1, draws[n - 1], t[n - 1]);
      } else {
        OptimalFollowsTally(pages, frameCount, n - 1, draws[n - 1], t[n - 1]);
      }
    }
  }

  /** FIFO and the optimal policy of the simulator report the tally run's
      counts, for every input. */
  lemma SimulatorIsTallyRun(alg: Policy, pages: seq<Page>, frameCount: nat, draws: seq<real>)
    requires alg == Fifo || alg == Optimal
    requires frameCount >= 1 && |draws| == |pages| && ValidDraws(draws)
    ensures SimulateAlgorithm(alg, pages, frameCount, draws)
         == Outcome(TallyRun(alg, pages, frameCount, |pages|).faults, TallyRun(alg, pages, frameCount, |pages|).hits)
  {
    var t := Trace(alg, pages, frameCount, draws);
    TraceLinked(alg, pages, frameCount, draws);
    TraceFollowsTally(alg, pages, frameCount, draws, t, |pages|);
  }

  // ---------------------------------------------------------------- tables

  /** A tally for every prefix length, each one step of `alg` from the one
      before it. */
  predicate TallyLinked(alg: Policy, pages: seq<Page>, frameCount: nat, ts: seq<Tally>, k: nat)
    requires alg == Fifo || alg == Optimal
  {
    && frameCount >= 1 && k + 1 < |ts| && k < |pages| && |ts[k].memory| <= frameCount
    && ts[k + 1] == if alg == Fifo then FifoNext(ts[k], pages[k], frameCount)
                    else OptimalNext(ts[k], pages, k, frameCount)
  }

  /** A linked table that starts empty lists the tally run. */
  lemma {:induction false} TableIsRun(alg: Policy, pages: seq<Page>, frameCount: nat, ts: seq<Tally>, n: nat)
    requires alg == Fifo || alg == Optimal
    requires frameCount >= 1 && n <= |pages| && |ts| == |pages| + 1 && ts[0] == Tally([], 0, 0)
    requires forall k :: 0 <= k < |pages| ==> TallyLinked(alg, pages, frameCount, ts, k)
    ensures TallyRun(alg, pages, frameCount, n) == ts[n]
    decreases n
  {
    if n > 0 {
      TableIsRun(alg, pages, frameCount, ts, n - 1);
      assert TallyLinked(alg, pages, frameCount, ts, n - 1);
    }
  }

  /** A sequence that agrees with the default reference string entry by
      entry. The concrete lemmas below take such a sequence rather than the
      literal itself, which keeps each of them to a small proof. */
  predicate IsDefault(pages: seq<Page>) {
    |pages| == |DefaultRefs| && forall k :: 0 <= k < |pages| ==> pages[k] == DefaultRefs[k]
  }

  /** The next request of `p` from `from` on is at `j` when `p` sits at `j`
      and nowhere in between. */
  lemma NextRequestAt(pages: seq<Page>, p: Page, from: nat, j: nat)
    requires from <= j < |pages| && pages[j] == p
    requires forall k :: from <= k < j ==> pages[k] != p
    ensures IndexFrom(pages, p, from) == j
  {
  }

  /** The optimal victim is the scan over the resident pages' next requests. */
  lemma VictimFromNexts(memory: seq<Page>, pages: seq<Page>, from: nat, nexts: seq<int>)
    requires 0 < |memory| == |nexts|
    requires forall k :: 0 <= k < |memory| ==> nexts[k] == IndexFrom(pages, memory[k], from)
    ensures OptimalVictim(memory, pages, from) == ScanNexts(nexts, 0, -1, 0)
  {
    OptimalScanIsScanNexts(memory, pages, from, 0, -1, 0);
    assert NextUses(memory, pages, from) == nexts;
  }

  // ---------------------------------------------------------------- FIFO

  /** FIFO on the default string, one tally per prefix length. */
  const FifoTallies: seq<Tally> := [
    Tally([], 0, 0),
    Tally([7], 1, 0),
    Tally([7, 0], 2, 0),
    Tally([7, 0, 1], 3, 0),
    Tally([0, 1, 2], 4, 0),
    Tally([0, 1, 2], 4, 1),
    Tally([1, 2, 3], 5, 1),
    Tally([2, 3, 0], 6, 1),
    Tally([3, 0, 4], 7, 1),
    Tally([0, 4, 2], 8, 1),
    Tally([4, 2, 3], 9, 1),
    Tally([2, 3, 0], 10, 1),
    Tally([2, 3, 0], 10, 2),
    Tally([2, 3, 0], 10, 3),
    Tally([3, 0, 1], 11, 3),
    Tally([0, 1, 2], 12, 3),
    Tally([0, 1, 2], 12, 4),
    Tally([0, 1, 2], 12, 5),
    Tally([1, 2, 7], 13, 5),
    Tally([2, 7, 0], 14, 5),
    Tally([7, 0, 1], 15, 5)]

  // Each lemma below checks a few consecutive rows of the table against one
  // FIFO iteration.

  lemma FifoLinks0(pages: seq<Page>)
    requires IsDefault(pages)
    ensures forall k :: 0 <= k < 2 ==> TallyLinked(Fifo, pages, 3, FifoTallies, k)
  {
  }

  lemma FifoLinks2(pages: seq<Page>)
    requires IsDefault(pages)
    ensures forall k :: 2 <= k < 4 ==> TallyLinked(Fifo, pages, 3, FifoTallies, k)
  {
  }

  lemma FifoLinks4(pages: seq<Page>)
    requires IsDefault(pages)
    ensures forall k :: 4 <= k < 6 ==> TallyLinked(Fifo, pages, 3, FifoTallies, k)
  {
  }

  lemma FifoLinks6(pages: seq<Page>)
    requires IsDefault(pages)
    ensures forall k :: 6 <= k < 8 ==> TallyLinked(Fifo, pages, 3, FifoTallies, k)
  {
  }

  lemma FifoLinks8(pages: seq<Page>)
    requires IsDefault(pages)
    ensures forall k :: 8 <= k < 10 ==> TallyLinked(Fifo, pages, 3, FifoTallies, k)
  {
  }

  lemma FifoLinks10(pages: seq<Page>)
    requires IsDefault(pages)
    ensures forall k :: 10 <= k < 12 ==> TallyLinked(Fifo, pages, 3, FifoTallies, k)
  {
  }

  lemma FifoLinks12(pages: seq<Page>)
    requires IsDefault(pages)
    ensures forall k :: 12 <= k < 14 ==> TallyLinked(Fifo, pages, 3, FifoTallies, k)
  {
  }

  lemma FifoLinks14(pages: seq<Page>)
    requires IsDefault(pages)
    ensures forall k :: 14 <= k < 16 ==> TallyLinked(Fifo, pages, 3, FifoTallies, k)
  {
  }

  lemma FifoLinks16(pages: seq<Page>)
    requires IsDefault(pages)
    ensures forall k :: 16 <= k < 18 ==> TallyLinked(Fifo, pages, 3, FifoTallies, k)
  {
  }

  lemma FifoLinks18(pages: seq<Page>)
    requires IsDefault(pages)
    ensures forall k :: 18 <= k < 20 ==> TallyLinked(Fifo, pages, 3, FifoTallies, k)
  {
  }

  // ---------------------------------------------------------------- optimal

  /** The optimal policy on the default string, one tally per prefix length. */
  const OptimalTallies: seq<Tally> := [
    Tally([], 0, 0),
    Tally([7], 1, 0),
    Tally([7, 0], 2, 0),
    Tally([7, 0, 1], 3, 0),
    Tally([2, 0, 1], 4, 0),
    Tally([2, 0, 1], 4, 1),
    Tally([2, 0, 3], 5, 1),
    Tally([2, 0, 3], 5, 2),
    Tally([2, 4, 3], 6, 2),
    Tally([2, 4, 3], 6, 3),
    Tally([2, 4, 3], 6, 4),
    Tally([2, 0, 3], 7, 4),
    Tally([2, 0, 3], 7, 5),
    Tally([2, 0, 3], 7, 6),
    Tally([2, 0, 1], 8, 6),
    Tally([2, 0, 1], 8, 7),
    Tally([2, 0, 1], 8, 8),
    Tally([2, 0, 1], 8, 9),
    Tally([7, 0, 1], 9, 9),
    Tally([7, 0, 1], 9, 10),
    Tally([7, 0, 1], 9, 11)]

  /** Reference 3 faults with [7, 0, 1] resident; next requests: 17, 4, 13. */
  lemma Victim3(pages: seq<Page>)
    requires IsDefault(pages)
    ensures OptimalVictim([7, 0, 1], pages, 4) == 0
  {
    NextRequestAt(pages, 7, 4, 17);
    NextRequestAt(pages, 0, 4, 4);
    NextRequestAt(pages, 1, 4, 13);
    VictimFromNexts([7, 0, 1], pages, 4, [17, 4, 13]);
  }

  /** Reference 5 faults with [2, 0, 1] resident; next requests: 8, 6, 13. */
  lemma Victim5(pages: seq<Page>)
    requires IsDefault(pages)
    ensures OptimalVictim([2, 0, 1], pages, 6) == 2
  {
    NextRequestAt(pages, 2, 6, 8);
    NextRequestAt(pages, 0, 6, 6);
    NextRequestAt(pages, 1, 6, 13);
    VictimFromNexts([2, 0, 1], pages, 6, [8, 6, 13]);
  }

  /** Reference 7 faults with [2, 0, 3] resident; next requests: 8, 10, 9. */
  lemma Victim7(pages: seq<Page>)
    requires IsDefault(pages)
    ensures OptimalVictim([2, 0, 3], pages, 8) == 1
  {
    NextRequestAt(pages, 2, 8, 8);
    NextRequestAt(pages, 0, 8, 10);
    NextRequestAt(pages, 3, 8, 9);
    VictimFromNexts([2, 0, 3], pages, 8, [8, 10, 9]);
  }

  /** Reference 10 faults with [2, 4, 3] resident; next requests: 12, none, 11. */
  lemma Victim10(pages: seq<Page>)
    requires IsDefault(pages)
    ensures OptimalVictim([2, 4, 3], pages, 11) == 1
  {
    NextRequestAt(pages, 2, 11, 12);
    NextRequestAt(pages, 3, 11, 11);
    VictimFromNexts([2, 4, 3], pages, 11, [12, -1, 11]);
  }

  /** Reference 13 faults with [2, 0, 3] resident; next requests: 14, 15, none. */
  lemma Victim13(pages: seq<Page>)
    requires IsDefault(pages)
    ensures OptimalVictim([2, 0, 3], pages, 14) == 2
  {
    NextRequestAt(pages, 2, 14, 14);
    NextRequestAt(pages, 0, 14, 15);
    VictimFromNexts([2, 0, 3], pages, 14, [14, 15, -1]);
  }

  /** Reference 17 faults with [2, 0, 1] resident; next requests: none, 18, 19. */
  lemma Victim17(pages: seq<Page>)
    requires IsDefault(pages)
    ensures OptimalVictim([2, 0, 1], pages, 18) == 0
  {
    NextRequestAt(pages, 0, 18, 18);
    NextRequestAt(pages, 1, 18, 19);
    VictimFromNexts([2, 0, 1], pages, 18, [-1, 18, 19]);
  }

  // Each lemma below checks consecutive rows of the table against one
  // optimal iteration; a row that evicts uses the victim found above.

  lemma OptimalLinks0(pages: seq<Page>)
    requires IsDefault(pages)
    ensures forall k :: 0 <= k < 3 ==> TallyLinked(Optimal, pages, 3, OptimalTallies, k)
  {
  }

  lemma OptimalLinks3(pages: seq<Page>)
    requires IsDefault(pages)
    ensures forall k :: 3 <= k < 4 ==> TallyLinked(Optimal, pages, 3, OptimalTallies, k)
  {
    Victim3(pages);
  }

  lemma OptimalLinks4(pages: seq<Page>)
    requires IsDefault(pages)
    ensures forall k :: 4 <= k < 5 ==> TallyLinked(Optimal, pages, 3, OptimalTallies, k)
  {
  }

  lemma OptimalLinks5(pages: seq<Page>)
    requires IsDefault(pages)
    ensures forall k :: 5 <= k < 6 ==> TallyLinked(Optimal, pages, 3, OptimalTallies, k)
  {
    Victim5(pages);
  }

  lemma OptimalLinks6(pages: seq<Page>)
    requires IsDefault(pages)
    ensures forall k :: 6 <= k < 7 ==> TallyLinked(Optimal, pages, 3, OptimalTallies, k)
  {
  }

  lemma OptimalLinks7(pages: seq<Page>)
    requires IsDefault(pages)
    ensures forall k :: 7 <= k < 8 ==> TallyLinked(Optimal, pages, 3, OptimalTallies, k)
  {
    Victim7(pages);
  }

  lemma OptimalLinks8(pages: seq<Page>)
    requires IsDefault(pages)
    ensures forall k :: 8 <= k < 10 ==> TallyLinked(Optimal, pages, 3, OptimalTallies, k)
  {
  }

  lemma OptimalLinks10(pages: seq<Page>)
    requires IsDefault(pages)
    ensures forall k :: 10 <= k < 11 ==> TallyLinked(Optimal, pages, 3, OptimalTallies, k)
  {
    Victim10(pages);
  }

  lemma OptimalLinks11(pages: seq<Page>)
    requires IsDefault(pages)
    ensures forall k :: 11 <= k < 13 ==> TallyLinked(Optimal, pages, 3, OptimalTallies, k)
  {
  }

  lemma OptimalLinks13(pages: seq<Page>)
    requires IsDefault(pages)
    ensures forall k :: 13 <= k < 14 ==> TallyLinked(Optimal, pages, 3, OptimalTallies, k)
  {
    Victim13(pages);
  }

  lemma OptimalLinks14(pages: seq<Page>)
    requires IsDefault(pages)
    ensures forall k :: 14 <= k < 17 ==> TallyLinked(Optimal, pages, 3, OptimalTallies, k)
  {
  }

  lemma OptimalLinks17(pages: seq<Page>)
    requires IsDefault(pages)
    ensures forall k :: 17 <= k < 18 ==> TallyLinked(Optimal, pages, 3, OptimalTallies, k)
  {
    Victim17(pages);
  }

  lemma OptimalLinks18(pages: seq<Page>)
    requires IsDefault(pages)
    ensures forall k :: 18 <= k < 20 ==> TallyLinked(Optimal, pages, 3, OptimalTallies, k)
  {
  }

  // ---------------------------------------------------------------- the run

  /** FIFO over the default string ends with 7, 0, 1 resident after 15
      faults and 5 hits. */
  lemma FifoDefaultTally(pages: seq<Page>)
    requires IsDefault(pages)
    ensures TallyRun(Fifo, pages, 3, 20) == Tally([7, 0, 1], 15, 5)
  {
    FifoLinks0(pages);
    FifoLinks2(pages);
    FifoLinks4(pages);
    FifoLinks6(pages);
    FifoLinks8(pages);
    FifoLinks10(pages);
    FifoLinks12(pages);
    FifoLinks14(pages);
    FifoLinks16(pages);
    FifoLinks18(pages);
    TableIsRun(Fifo, pages, 3, FifoTallies, 20);
  }

  /** The optimal policy over the default string ends with 7, 0, 1 resident
      after 9 faults and 11 hits. */
  lemma OptimalDefaultTally(pages: seq<Page>)
    requires IsDefault(pages)
    ensures TallyRun(Optimal, pages, 3, 20) == Tally([7, 0, 1], 9, 11)
  {
    OptimalLinks0(pages);
    OptimalLinks3(pages);
    OptimalLinks4(pages);
    OptimalLinks5(pages);
    OptimalLinks6(pages);
    OptimalLinks7(pages);
    OptimalLinks8(pages);
    OptimalLinks10(pages);
    OptimalLinks11(pages);
    OptimalLinks13(pages);
    OptimalLinks14(pages);
    OptimalLinks17(pages);
    OptimalLinks18(pages);
    TableIsRun(Optimal, pages, 3, OptimalTallies, 20);
  }

  /** The literal itself is the default string. */
  lemma DefaultIsDefault()
    ensures IsDefault(DefaultRefs)
  {
  }

  /** The batch simulator on the default run: FIFO 15 faults and 5 hits, the
      optimal policy 9 faults and 11 hits. */
  lemma DefaultSimulation(pages: seq<Page>)
    requires IsDefault(pages)
    ensures |NoDraws| == |pages| && ValidDraws(NoDraws)
    ensures SimulateAlgorithm(Fifo, pages, 3, NoDraws) == Outcome(15, 5)
    ensures SimulateAlgorithm(Optimal, pages, 3, NoDraws) == Outcome(9, 11)
  {
    FifoDefaultTally(pages);
    OptimalDefaultTally(pages);
    SimulatorIsTallyRun(Fifo, pages, 3, NoDraws);
    SimulatorIsTallyRun(Optimal, pages, 3, NoDraws);
  }

  /** The teaching panel's FIFO and optimal walkthroughs count the same
      faults on the default run. */
  lemma DefaultWalkthrough(pages: seq<Page>)
    requires IsDefault(pages)
    ensures EduFifo(pages, 3).pageFaults == 15
    ensures EduOptimal(pages, 3).pageFaults == 9
  {
    DefaultSimulation(pages);
    EduFifoIsSimulatorFifo(pages, 3, NoDraws);
    EduOptimalIsSimulatorOptimal(pages, 3, NoDraws);
  }

  /** The FIFO and optimal rows of the comparison table report those
      policies' runs and the hit rates of those runs. */
  lemma ComparisonReports(refs: seq<Page>, frameCount: nat, draws: seq<real>, fifo: Outcome, optimal: Outcome)
    requires frameCount >= 1 && |draws| == |refs| && ValidDraws(draws)
    requires SimulateAlgorithm(Fifo, refs, frameCount, draws) == fifo
    requires SimulateAlgorithm(Optimal, refs, frameCount, draws) == optimal
    ensures var table := RunComparison(refs, frameCount, draws);
            && table[0].pageFaults == fifo.pageFaults && table[0].efficiency == HitPercent(fifo.pageHits, |refs|)
            && table[2].pageFaults == optimal.pageFaults && table[2].efficiency == HitPercent(optimal.pageHits, |refs|)
  {
    assert Lineup[0] == Fifo && Lineup[2] == Optimal;
  }

  /** The comparison table of the default run reports FIFO at 15 faults and
      a 25% hit rate, and the optimal policy at 9 faults and 55%. */
  lemma DefaultComparison(pages: seq<Page>)
    requires IsDefault(pages)
    ensures |NoDraws| == |pages| && ValidDraws(NoDraws)
    ensures var table := RunComparison(pages, 3, NoDraws);
            && table[0].pageFaults == 15 && table[0].efficiency == Some(25.0)
            && table[2].pageFaults == 9 && table[2].efficiency == Some(55.0)
  {
    DefaultSimulation(pages);
    ComparisonReports(pages, 3, NoDraws, Outcome(15, 5), Outcome(9, 11));
    DefaultHitRates();
  }

  /** 5 hits in 20 references is 25%, 11 hits is 55%. */
  lemma DefaultHitRates()
    ensures HitPercent(5, 20) == Some(25.0) && HitPercent(11, 20) == Some(55.0)
  {
  }
}
