/** The simulator's policies measured against Belady's bound: every policy is
    a demand-paging policy, so its fault count is reachable, and the optimal
    policy's farthest-in-future eviction reaches the least such count. */
module Optimality {
  import opened Pages
  import opened Simulator
  import opened SimulatorRules
  import opened Belady

  /** The position of the next request, as `indexOf(p, from)` reports it,
      relative to `from`. */
  lemma NextIdxFrom(pages: seq<Page>, p: Page, from: nat)
    requires from <= |pages|
    ensures NextIdx(pages[from..], p)
         == if IndexFrom(pages, p, from) == -1 then |pages| - from else IndexFrom(pages, p, from) - from
  {
  }

  /** The slot the optimal policy overwrites holds a resident page whose next
      request is at least as far ahead as every other resident page's. */
  lemma VictimIsFarthest(memory: seq<Page>, pages: seq<Page>, from: nat, v: nat)
    requires from <= |pages|
    requires FirstUnused(memory, pages, from, v) || FirstFarthest(memory, pages, from, v)
    ensures v < |memory|
    ensures forall y :: y in Elems(memory) ==> NextIdx(pages[from..], y) <= NextIdx(pages[from..], memory[v])
  {
    forall y | y in Elems(memory)
      ensures NextIdx(pages[from..], y) <= NextIdx(pages[from..], memory[v])
    {
      var k :| 0 <= k < |memory| && memory[k] == y;
      NextIdxFrom(pages, y, from);
      NextIdxFrom(pages, memory[v], from);
    }
  }

  /** On a fault with every frame in use, every policy overwrites exactly
      one resident page. */
  lemma StepEvicts(alg: Policy, pages: seq<Page>, frameCount: nat, i: nat, u: real, st: State) returns (v: nat)
    requires i < |pages| && 0.0 <= u < 1.0 && Valid(st, frameCount)
    requires pages[i] !in st.memory && |st.memory| >= frameCount
    ensures v < |st.memory|
    ensures Elems(Step(alg, pages, frameCount, i, u, st).memory) == Elems(st.memory) - {st.memory[v]} + {pages[i]}
  {
    var m, p := st.memory, pages[i];
    match alg
    case Fifo =>
      EvictHeadAppend(alg, pages, frameCount, i, u, st);
      v := 0;
      ShiftPush(m, p);
    case Lru =>
      EvictHeadAppend(alg, pages, frameCount, i, u, st);
      v := 0;
      ShiftPush(m, p);
    case Optimal =>
      v := OptimalOverwritesVictim(pages, frameCount, i, u, st);
      ReplaceSlot(m, v, p);
    case Clock =>
      var passed;
      v, passed := ClockReplace(pages, frameCount, i, u, st);
      ReplaceSlot(m, v, p);
    case Nfu =>
      v := NfuReplacesLeastCounted(pages, frameCount, i, u, st);
      ReplaceSlot(m, v, p);
    case Random =>
      v := RandomReplacesSomeSlot(pages, frameCount, i, u, st);
      ReplaceSlot(m, v, p);
  }

  /** Every simulator policy is demand paging: a hit leaves the resident set
      as it was, a fault with a free frame only admits the page, and a fault
      on a full memory evicts exactly one resident page for it. */
  lemma StepMoves(alg: Policy, pages: seq<Page>, frameCount: nat, i: nat, u: real, st: State)
    requires i < |pages| && 0.0 <= u < 1.0 && Valid(st, frameCount)
    ensures Moves(frameCount, Elems(st.memory), pages[i], Elems(Step(alg, pages, frameCount, i, u, st).memory))
  {
    var m, p := st.memory, pages[i];
    var r := Step(alg, pages, frameCount, i, u, st);
    NoDupsCard(m);
    if p in m {
      assert Elems(r.memory) == Elems(m);
    } else if |m| < frameCount {
      assert Elems(r.memory) == Elems(m) + {p};
    } else {
      var v := StepEvicts(alg, pages, frameCount, i, u, st);
      assert m[v] in Elems(m);
    }
  }

  /** The resident sets and running fault totals of a run, one per prefix
      length, form a trace of legal demand-paging moves. */
  lemma RunTrace(alg: Policy, pages: seq<Page>, frameCount: nat, draws: seq<real>)
    returns (cs: seq<set<Page>>, fs: seq<nat>)
    requires frameCount >= 1 && |draws| == |pages| && ValidDraws(draws)
    ensures |cs| == |pages| + 1 && |fs| == |pages| + 1
    ensures cs[0] == {} && fs[0] == 0
    ensures fs[|pages|] == SimulateAlgorithm(alg, pages, frameCount, draws).pageFaults
    ensures forall i :: 0 <= i < |pages| ==> Moves(frameCount, cs[i], pages[i], cs[i + 1])
    ensures forall i :: 0 <= i < |pages| ==> fs[i + 1] == if pages[i] in cs[i] then fs[i] else fs[i] + 1
  {
    var t := Trace(alg, pages, frameCount, draws);
    TraceLinked(alg, pages, frameCount, draws);
    cs := seq(|pages| + 1, i requires 0 <= i <= |pages| => Elems(t[i].memory));
    fs := seq(|pages| + 1, i requires 0 <= i <= |pages| => t[i].faults);
    TraceMoves(alg, pages, frameCount, draws, t, cs, fs);
    assert cs[0] == {} by {
      assert Elems([]) == {};
    }
  }

  /** Along a linked trace, consecutive states are legal moves. */
  lemma TraceMoves(alg: Policy, pages: seq<Page>, frameCount: nat, draws: seq<real>, t: seq<State>, cs: seq<set<Page>>, fs: seq<nat>)
    requires |t| == |cs| == |fs| == |pages| + 1
    requires forall k :: 0 <= k < |pages| ==> Linked(alg, pages, frameCount, draws, t, k)
    requires forall i :: 0 <= i <= |pages| ==> cs[i] == Elems(t[i].memory) && fs[i] == t[i].faults
    ensures forall i :: 0 <= i < |pages| ==> Moves(frameCount, cs[i], pages[i], cs[i + 1])
    ensures forall i :: 0 <= i < |pages| ==> fs[i + 1] == if pages[i] in cs[i] then fs[i] else fs[i] + 1
  {
    forall i | 0 <= i < |pages|
      ensures Moves(frameCount, cs[i], pages[i], cs[i + 1])
      ensures fs[i + 1] == if pages[i] in cs[i] then fs[i] else fs[i] + 1
    {
      assert Linked(alg, pages, frameCount, draws, t, i);
      StepMoves(alg, pages, frameCount, i, draws[i], t[i]);
    }
  }

  /** Every run of the simulator is a demand-paging policy: its fault count
      is reachable from empty memory. */
  lemma RunIsDemandPaging(alg: Policy, pages: seq<Page>, frameCount: nat, draws: seq<real>)
    requires frameCount >= 1 && |draws| == |pages| && ValidDraws(draws)
    ensures Achievable(frameCount, {}, pages, SimulateAlgorithm(alg, pages, frameCount, draws).pageFaults)
  {
    var cs, fs := RunTrace(alg, pages, frameCount, draws);
    TraceFromEmpty(frameCount, cs, fs, pages);
  }

  /** From its `n`-th reference on, the optimal policy faults no more often
      than any count reachable from the same resident set. */
  lemma {:induction false} OptimalAttains(pages: seq<Page>, frameCount: nat, draws: seq<real>, n: nat, f: nat)
    requires frameCount >= 1 && n <= |pages| && |draws| == |pages| && ValidDraws(draws)
    requires Achievable(frameCount, Elems(Run(Optimal, pages, frameCount, draws, n).memory), pages[n..], f)
    ensures Run(Optimal, pages, frameCount, draws, |pages|).faults <= Run(Optimal, pages, frameCount, draws, n).faults + f
    decreases |pages| - n
  {
    if n < |pages| {
      var here := Run(Optimal, pages, frameCount, draws, n);
      var next := Run(Optimal, pages, frameCount, draws, n + 1);
      var c, q, rest := Elems(here.memory), pages[n], pages[n + 1..];
      assert pages[n..] == [q] + rest;
      StepMoves(Optimal, pages, frameCount, n, draws[n], here);
      NoDupsCard(here.memory);
      if q in c || |c| < frameCount {
        var c', f' := Unfold(frameCount, c, q, rest, f);
        OptimalAttains(pages, frameCount, draws, n + 1, f');
      } else {
        var v := OptimalOverwritesVictim(pages, frameCount, n, draws[n], here);
        VictimIsFarthest(here.memory, pages, n + 1, v);
        ReplaceSlot(here.memory, v, q);
        var g := FarthestStep(frameCount, c, q, rest, here.memory[v], f);
        OptimalAttains(pages, frameCount, draws, n + 1, g);
      }
    }
  }

  /** Belady's bound for the simulator: the optimal policy's fault count is
      one some demand-paging policy reaches, and no demand-paging policy with
      as many frames reaches fewer. */
  lemma OptimalIsLeast(pages: seq<Page>, frameCount: nat, draws: seq<real>, f: nat)
    requires frameCount >= 1 && |draws| == |pages| && ValidDraws(draws)
    ensures Achievable(frameCount, {}, pages, SimulateAlgorithm(Optimal, pages, frameCount, draws).pageFaults)
    ensures Achievable(frameCount, {}, pages, f) ==> SimulateAlgorithm(Optimal, pages, frameCount, draws).pageFaults <= f
  {
    RunIsDemandPaging(Optimal, pages, frameCount, draws);
    assert Elems([]) == {};
    assert pages[0..] == pages;
    if Achievable(frameCount, {}, pages, f) {
      OptimalAttains(pages, frameCount, draws, 0, f);
    }
  }

  /** In particular the optimal policy never faults more often than any other
      policy of the simulator, whatever values the random policy draws. */
  lemma OptimalNeverWorse(alg: Policy, pages: seq<Page>, frameCount: nat, draws: seq<real>, other: seq<real>)
    requires frameCount >= 1 && |draws| == |pages| && ValidDraws(draws)
    requires |other| == |pages| && ValidDraws(other)
    ensures SimulateAlgorithm(Optimal, pages, frameCount, draws).pageFaults
         <= SimulateAlgorithm(alg, pages, frameCount, other).pageFaults
  {
    RunIsDemandPaging(alg, pages, frameCount, other);
    OptimalIsLeast(pages, frameCount, draws, SimulateAlgorithm(alg, pages, frameCount, other).pageFaults);
  }
}
