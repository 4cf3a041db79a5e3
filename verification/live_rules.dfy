/** What the live simulation promises: the session invariant, the meaning of
    a TLB hit, and agreement with the batch simulator and its comparison
    table. */
module LiveRules {
  import opened Pages
  import opened Simulator
  import opened SimulatorRules
  import opened Optimality
  import opened Live

  // ---------------------------------------------------------------- the invariant

  /** A reset session satisfies the invariant under every configuration, and
      resetting twice is resetting once. */
  lemma ResetIsConsistent(cfg: Config, s: Session)
    ensures Consistent(cfg, Reset(s)) && Consistent(cfg, Start(s))
    ensures Reset(Reset(s)) == Reset(s)
  {
  }

  lemma FaultCountSnoc(h: seq<HistoryItem>, x: HistoryItem)
    ensures FaultCount(h + [x]) == FaultCount(h) + (if x.fault then 1 else 0)
    ensures TlbHitCount(h + [x]) == TlbHitCount(h) + (if x.tlbHit then 1 else 0)
  {
    assert (h + [x])[..|h|] == h;
  }

  /** A step keeps the invariant: the counters count the history rows, the
      frames are the last row's, at most `frameCount` of them and no page
      twice. */
  lemma StepKeepsConsistent(cfg: Config, s: Session, u: real)
    requires cfg.frameCount >= 1 && s.currentStep < |cfg.refs| && 0.0 <= u < 1.0
    requires Consistent(cfg, s)
    ensures Consistent(cfg, SimulateStep(cfg, s, u))
  {
    var r := SimulateStep(cfg, s, u);
    var x := r.history[|s.history|];
    assert r.history == s.history + [x];
    FaultCountSnoc(s.history, x);
    var placed := Place(cfg.algorithm, cfg.refs, cfg.frameCount, s.currentStep, s.frames, u);
    assert r.frames == placed.frames;
  }

  /** Any number of steps from a consistent session keeps it consistent. */
  lemma {:induction false} PlayKeepsConsistent(cfg: Config, s: Session, draws: seq<real>, n: nat)
    requires cfg.frameCount >= 1 && s.currentStep + n <= |cfg.refs| && |draws| == |cfg.refs| && ValidDraws(draws)
    requires Consistent(cfg, s)
    ensures Consistent(cfg, Play(cfg, s, draws, n))
    decreases n
  {
    if n > 0 {
      PlayKeepsConsistent(cfg, s, draws, n - 1);
      var p := Play(cfg, s, draws, n - 1);
      StepKeepsConsistent(cfg, p, draws[p.currentStep]);
    }
  }

  // ---------------------------------------------------------------- the TLB guess

  /** Where the TLB window of step `step` starts. */
  function WindowStart(step: nat, tlbSize: nat): (w: nat)
    ensures w <= step
  {
    if tlbSize == 0 || tlbSize >= step then 0 else step - tlbSize
  }

  /** On a consistent session the recent pages are exactly the references of
      the window before the current step. */
  lemma RecentPagesAreWindow(cfg: Config, s: Session)
    requires Consistent(cfg, s)
    ensures RecentPages(s.history, cfg.tlbSize) == cfg.refs[WindowStart(s.currentStep, cfg.tlbSize)..s.currentStep]
  {
  }

  /** The TLB counts a hit exactly when the page was referenced in the last
      `tlbSize` steps, or in any earlier step when the size is zero. */
  lemma TlbHitIsRecentReference(cfg: Config, s: Session, u: real)
    requires cfg.frameCount >= 1 && s.currentStep < |cfg.refs| && 0.0 <= u < 1.0
    requires Consistent(cfg, s) && cfg.tlbEnabled
    ensures var r := SimulateStep(cfg, s, u);
            var step := s.currentStep;
            r.history[step].tlbHit <==> cfg.refs[step] in cfg.refs[WindowStart(step, cfg.tlbSize)..step]
  {
    RecentPagesAreWindow(cfg, s);
  }

  /** With the TLB off no step counts a TLB hit or miss. */
  lemma TlbOffCountsNothing(cfg: Config, s: Session, u: real)
    requires cfg.frameCount >= 1 && s.currentStep < |cfg.refs| && 0.0 <= u < 1.0
    requires !cfg.tlbEnabled
    ensures var r := SimulateStep(cfg, s, u);
            !r.history[|s.history|].tlbHit && r.tlbHits == s.tlbHits && r.tlbMisses == s.tlbMisses
  {
  }

  // ---------------------------------------------------------------- the batch simulator

  /** One live frame update is one iteration of the batch simulator's loop
      under the policy the live step stands in for. */
  lemma PlaceMatchesStep(alg: Policy, refs: seq<Page>, frameCount: nat, i: nat, u: real, st: State)
    requires i < |refs| && 0.0 <= u < 1.0 && Valid(st, frameCount)
    ensures Place(alg, refs, frameCount, i, st.memory, u).frames == Step(Emulated(alg), refs, frameCount, i, u, st).memory
  {
    match alg
    case Fifo =>
    case Lru =>
    case Optimal =>
    case Clock => assert Emulated(alg) == Fifo;
    case Nfu => assert Emulated(alg) == Fifo;
    case Random =>
  }

  /** A live session and a simulator state hold the same frames and counters. */
  predicate Agrees(r: Session, st: State) {
    r.frames == st.memory && r.pageFaults == st.faults && r.pageHits == st.hits
  }

  /** From a reset session, the live frames and counters after `n` steps are
      the batch simulator's memory and counters after its first `n`
      iterations, under the same random draws; the clock and NFU settings
      follow FIFO. */
  lemma LiveMatchesSimulator(cfg: Config, s: Session, draws: seq<real>, n: nat)
    requires cfg.frameCount >= 1 && n <= |cfg.refs| && |draws| == |cfg.refs| && ValidDraws(draws)
    requires Consistent(cfg, s) && s.currentStep == 0
    ensures var r := Play(cfg, s, draws, n);
            var st := Run(Emulated(cfg.algorithm), cfg.refs, cfg.frameCount, draws, n);
            r.frames == st.memory && r.pageFaults == st.faults && r.pageHits == st.hits
  {
    var a := PlayTrace(cfg, s, draws);
    var b := Trace(Emulated(cfg.algorithm), cfg.refs, cfg.frameCount, draws);
    PlayTraceLinked(cfg, s, draws);
    TraceLinked(Emulated(cfg.algorithm), cfg.refs, cfg.frameCount, draws);
    LiveTracesAgree(cfg, draws, a, b, n);
  }

  /** A hand-stepped trace and a simulator trace that start in agreement
      agree at every step. */
  lemma {:induction false} LiveTracesAgree(cfg: Config, draws: seq<real>, a: seq<Session>, b: seq<State>, n: nat)
    requires |a| == |b| == |cfg.refs| + 1 && n <= |cfg.refs|
    requires forall k :: 0 <= k < |cfg.refs| ==> PlayLinked(cfg, draws, a, k)
    requires forall k :: 0 <= k < |cfg.refs| ==> Linked(Emulated(cfg.algorithm), cfg.refs, cfg.frameCount, draws, b, k)
    requires Agrees(a[0], b[0])
    ensures Agrees(a[n], b[n])
    decreases n
  {
    if n > 0 {
      LiveTracesAgree(cfg, draws, a, b, n - 1);
      assert PlayLinked(cfg, draws, a, n - 1);
      assert Linked(Emulated(cfg.algorithm), cfg.refs, cfg.frameCount, draws, b, n - 1);
      StepMatches(cfg, a[n - 1], b[n - 1], draws[n - 1]);
    }
  }

  /** One live step from a session that agrees with a simulator state agrees
      with one iteration from that state. */
  lemma StepMatches(cfg: Config, p: Session, st: State, u: real)
    requires cfg.frameCount >= 1 && p.currentStep < |cfg.refs| && 0.0 <= u < 1.0 && Valid(st, cfg.frameCount)
    requires p.frames == st.memory && p.pageFaults == st.faults && p.pageHits == st.hits
    ensures var r := SimulateStep(cfg, p, u);
            var next := Step(Emulated(cfg.algorithm), cfg.refs, cfg.frameCount, p.currentStep, u, st);
            r.frames == next.memory && r.pageFaults == next.faults && r.pageHits == next.hits
  {
    PlaceMatchesStep(cfg.algorithm, cfg.refs, cfg.frameCount, p.currentStep, u, st);
  }

  // ---------------------------------------------------------------- completion

  /** The row of the comparison table that reports `alg`. */
  function Row(alg: Policy): (i: nat)
    ensures i < |Lineup| && Lineup[i] == alg
  {
    match alg
    case Fifo => 0
    case Lru => 1
    case Optimal => 2
    case Clock => 3
    case Nfu => 4
    case Random => 5
  }

  /** Stepping a reset session through every reference and once more
      completes it. The comparison table runs the batch simulator afresh,
      with its own random draws: for every policy but random, the live fault
      and hit counts reappear in the row of the policy the live step stands
      in for, while the random row is a separate random run (see
      `RandomRowIsSeparateRun`). Whatever either side draws, the optimal row
      has no more faults than the live run. */
  lemma CompletedRunMatchesTable(cfg: Config, s: Session, draws: seq<real>, tableDraws: seq<real>, u: real)
    requires cfg.frameCount >= 1 && |draws| == |cfg.refs| && ValidDraws(draws) && 0.0 <= u < 1.0
    requires |tableDraws| == |cfg.refs| && ValidDraws(tableDraws)
    requires Consistent(cfg, s) && s.currentStep == 0 && !s.isComplete
    ensures var done := StepSimulation(cfg, Play(cfg, s, draws, |cfg.refs|), u, tableDraws);
            && done.isComplete && !done.isRunning && done.currentStep == |cfg.refs|
            && done.comparison[Row(Optimal)].pageFaults <= done.pageFaults
            && (Emulated(cfg.algorithm) != Random ==>
                  && done.comparison[Row(Emulated(cfg.algorithm))].pageFaults == done.pageFaults
                  && done.comparison[Row(Emulated(cfg.algorithm))].pageHits == done.pageHits)
  {
    var r := Play(cfg, s, draws, |cfg.refs|);
    LiveMatchesSimulator(cfg, s, draws, |cfg.refs|);
    FinishShowsRun(cfg, r, u, draws, tableDraws);
  }

  /** Finishing a session whose counters are a full batch run of the policy
      it stands in for, under the live draws, puts those counters in that
      policy's table row unless the policy is random, and never below the
      optimal row. */
  lemma FinishShowsRun(cfg: Config, r: Session, u: real, draws: seq<real>, tableDraws: seq<real>)
    requires cfg.frameCount >= 1 && |draws| == |cfg.refs| && ValidDraws(draws) && 0.0 <= u < 1.0
    requires |tableDraws| == |cfg.refs| && ValidDraws(tableDraws)
    requires r.currentStep == |cfg.refs| && !r.isComplete
    requires var st := Run(Emulated(cfg.algorithm), cfg.refs, cfg.frameCount, draws, |cfg.refs|);
             r.pageFaults == st.faults && r.pageHits == st.hits
    ensures var done := StepSimulation(cfg, r, u, tableDraws);
            && done.isComplete && !done.isRunning && done.currentStep == |cfg.refs|
            && done.comparison[Row(Optimal)].pageFaults <= done.pageFaults
            && (Emulated(cfg.algorithm) != Random ==>
                  && done.comparison[Row(Emulated(cfg.algorithm))].pageFaults == done.pageFaults
                  && done.comparison[Row(Emulated(cfg.algorithm))].pageHits == done.pageHits)
  {
    var alg := Emulated(cfg.algorithm);
    var done := StepSimulation(cfg, r, u, tableDraws);
    assert done == Complete(cfg, r, tableDraws);
    TableRow(cfg.refs, cfg.frameCount, tableDraws, alg);
    OptimalNeverWorse(alg, cfg.refs, cfg.frameCount, tableDraws, draws);
    if alg != Random {
      RunIgnoresDraws(alg, cfg.refs, cfg.frameCount, tableDraws, draws, |cfg.refs|);
    }
  }

  /** The comparison table's row for `alg` holds the counters of a full
      batch run of `alg` under the table's draws, and the optimal row has no
      more faults. */
  lemma TableRow(refs: seq<Page>, frameCount: nat, tableDraws: seq<real>, alg: Policy)
    requires frameCount >= 1 && |tableDraws| == |refs| && ValidDraws(tableDraws)
    ensures var table, st := RunComparison(refs, frameCount, tableDraws), Run(alg, refs, frameCount, tableDraws, |refs|);
            && table[Row(alg)].pageFaults == st.faults && table[Row(alg)].pageHits == st.hits
            && table[Row(Optimal)].pageFaults <= st.faults
  {
    var table := RunComparison(refs, frameCount, tableDraws);
    assert table[Row(Optimal)].pageFaults <= table[Row(alg)].pageFaults;
  }

  /** The random row and a live random session need not agree: on the
      references 1, 2, 3, 1 with two frames, the third reference overwrites
      the slot its draw picks, and the run faults three times when that is
      slot 1 and four times when it is slot 0. A live draw of one half picks
      slot 1, a table draw of zero picks slot 0. */
  lemma RandomRowIsSeparateRun(refs: seq<Page>, draws: seq<real>)
    requires refs == [1, 2, 3, 1] && |draws| == 4 && ValidDraws(draws)
    ensures Run(Random, refs, 2, draws, 4).faults == if RandomIndex(draws[2], 2) == 1 then 3 else 4
    ensures RandomIndex(0.5, 2) == 1 && RandomIndex(0.0, 2) == 0
  {
    var v := RandomIndex(draws[2], 2);
    RandomTwoLoaded(refs, draws);
    var st2 := Run(Random, refs, 2, draws, 2);
    RunUnfolds(Random, refs, 2, draws, 3);
    var st3 := Step(Random, refs, 2, 2, draws[2], st2);
    assert st3.memory == [1, 2][v := 3] && st3.faults == 3;
    RunUnfolds(Random, refs, 2, draws, 4);
    if v == 1 {
      assert st3.memory[0] == 1;
    } else {
      assert st3.memory == [3, 2];
    }
  }

  /** The first two references of 1, 2, 3, 1 fill both frames. */
  lemma RandomTwoLoaded(refs: seq<Page>, draws: seq<real>)
    requires refs == [1, 2, 3, 1] && |draws| == 4 && ValidDraws(draws)
    ensures var st := Run(Random, refs, 2, draws, 2);
            st.memory == [1, 2] && st.faults == 2
  {
    InitIsEmpty(2);
    RunUnfolds(Random, refs, 2, draws, 1);
    RunUnfolds(Random, refs, 2, draws, 2);
    assert Run(Random, refs, 2, draws, 1).memory == [1];
  }

  /** The timer driving a running session, `n` ticks long. */
  function Ticks(cfg: Config, s: Session, draws: seq<real>, tableDraws: seq<real>, n: nat): (r: Session)
    requires cfg.frameCount >= 1 && |draws| == |cfg.refs| && ValidDraws(draws)
    requires |tableDraws| == |cfg.refs| && ValidDraws(tableDraws)
    decreases n
  {
    if n == 0 then s
    else
      var p := Ticks(cfg, s, draws, tableDraws, n - 1);
      Tick(cfg, p, if p.currentStep < |draws| then draws[p.currentStep] else 0.0, tableDraws)
  }

  /** Consecutive sessions of a hand-stepped run: `t[k + 1]` serves
      reference `k` from `t[k]`. */
  predicate PlayLinked(cfg: Config, draws: seq<real>, t: seq<Session>, k: nat) {
    && k + 1 < |t| && k < |cfg.refs| && k < |draws| && cfg.frameCount >= 1 && 0.0 <= draws[k] < 1.0
    && t[k].currentStep == k
    && t[k + 1] == SimulateStep(cfg, t[k], draws[k])
  }

  /** The hand-stepped session after every prefix. */
  function PlayTrace(cfg: Config, s: Session, draws: seq<real>): (t: seq<Session>)
    requires cfg.frameCount >= 1 && |draws| == |cfg.refs| && ValidDraws(draws) && s.currentStep == 0
    ensures |t| == |cfg.refs| + 1
    ensures forall n :: 0 <= n <= |cfg.refs| ==> t[n] == Play(cfg, s, draws, n)
  {
    seq(|cfg.refs| + 1, n requires 0 <= n <= |cfg.refs| => Play(cfg, s, draws, n))
  }

  lemma PlayTraceLinked(cfg: Config, s: Session, draws: seq<real>)
    requires cfg.frameCount >= 1 && |draws| == |cfg.refs| && ValidDraws(draws) && s.currentStep == 0
    ensures var t := PlayTrace(cfg, s, draws);
            t[0] == s && forall k :: 0 <= k < |cfg.refs| ==> PlayLinked(cfg, draws, t, k)
  {
    var t := PlayTrace(cfg, s, draws);
    forall k | 0 <= k < |cfg.refs|
      ensures PlayLinked(cfg, draws, t, k)
    {
      assert t[k + 1] == Play(cfg, s, draws, k + 1);
    }
  }

  /** Consecutive sessions under the timer: `t[k + 1]` is one tick on from
      `t[k]`. */
  predicate TickLinked(cfg: Config, draws: seq<real>, tableDraws: seq<real>, t: seq<Session>, k: nat) {
    && k + 1 < |t| && cfg.frameCount >= 1 && |draws| == |cfg.refs| && ValidDraws(draws)
    && |tableDraws| == |cfg.refs| && ValidDraws(tableDraws)
    && t[k + 1] == Tick(cfg, t[k], if t[k].currentStep < |draws| then draws[t[k].currentStep] else 0.0, tableDraws)
  }

  /** The session after every number of ticks up to `|refs|`. */
  function TickTrace(cfg: Config, s: Session, draws: seq<real>, tableDraws: seq<real>): (t: seq<Session>)
    requires cfg.frameCount >= 1 && |draws| == |cfg.refs| && ValidDraws(draws)
    requires |tableDraws| == |cfg.refs| && ValidDraws(tableDraws)
    ensures |t| == |cfg.refs| + 1
    ensures forall n :: 0 <= n <= |cfg.refs| ==> t[n] == Ticks(cfg, s, draws, tableDraws, n)
  {
    seq(|cfg.refs| + 1, n requires 0 <= n <= |cfg.refs| => Ticks(cfg, s, draws, tableDraws, n))
  }

  lemma TickTraceLinked(cfg: Config, s: Session, draws: seq<real>, tableDraws: seq<real>)
    requires cfg.frameCount >= 1 && |draws| == |cfg.refs| && ValidDraws(draws)
    requires |tableDraws| == |cfg.refs| && ValidDraws(tableDraws)
    ensures var t := TickTrace(cfg, s, draws, tableDraws);
            t[0] == s && forall k :: 0 <= k < |cfg.refs| ==> TickLinked(cfg, draws, tableDraws, t, k)
  {
    var t := TickTrace(cfg, s, draws, tableDraws);
    forall k | 0 <= k < |cfg.refs|
      ensures TickLinked(cfg, draws, tableDraws, t, k)
    {
      assert t[k + 1] == Ticks(cfg, s, draws, tableDraws, k + 1);
    }
  }

  /** A timer trace and a hand-stepped trace from the same running session
      stay equal, and the session keeps running. */
  lemma {:induction false} TracesMeet(cfg: Config, draws: seq<real>, tableDraws: seq<real>, a: seq<Session>, b: seq<Session>, n: nat)
    requires |a| == |b| == |cfg.refs| + 1 && n <= |cfg.refs|
    requires a[0] == b[0] && b[0].isRunning
    requires forall k :: 0 <= k < |cfg.refs| ==> TickLinked(cfg, draws, tableDraws, a, k)
    requires forall k :: 0 <= k < |cfg.refs| ==> PlayLinked(cfg, draws, b, k)
    ensures a[n] == b[n] && b[n].isRunning
    decreases n
  {
    if n > 0 {
      TracesMeet(cfg, draws, tableDraws, a, b, n - 1);
      assert TickLinked(cfg, draws, tableDraws, a, n - 1) && PlayLinked(cfg, draws, b, n - 1);
    }
  }

  /** A started session runs on its own: each of the first `|refs|` ticks
      serves the next reference exactly as stepping by hand does. */
  lemma TimerServesReferences(cfg: Config, s: Session, draws: seq<real>, tableDraws: seq<real>, n: nat)
    requires cfg.frameCount >= 1 && |draws| == |cfg.refs| && ValidDraws(draws)
    requires |tableDraws| == |cfg.refs| && ValidDraws(tableDraws)
    requires s.isRunning && s.currentStep == 0 && n <= |cfg.refs|
    ensures Ticks(cfg, s, draws, tableDraws, n) == Play(cfg, s, draws, n)
  {
    var a, b := TickTrace(cfg, s, draws, tableDraws), PlayTrace(cfg, s, draws);
    TickTraceLinked(cfg, s, draws, tableDraws);
    PlayTraceLinked(cfg, s, draws);
    TracesMeet(cfg, draws, tableDraws, a, b, n);
  }

  /** A paused session keeps its invariant, and the timer leaves it alone
      until it is resumed or has no reference left. */
  lemma PauseHoldsSession(cfg: Config, s: Session, u: real, tableDraws: seq<real>)
    requires cfg.frameCount >= 1 && 0.0 <= u < 1.0 && |tableDraws| == |cfg.refs| && ValidDraws(tableDraws)
    ensures Consistent(cfg, s) ==> Consistent(cfg, Pause(s))
    ensures s.currentStep < |cfg.refs| ==> Tick(cfg, Pause(s), u, tableDraws) == Pause(s)
  {
  }

  /** One tick after the last reference completes the session, with the
      comparison table computed from the table's own draws. */
  lemma TimerRunsToCompletion(cfg: Config, s: Session, draws: seq<real>, tableDraws: seq<real>)
    requires cfg.frameCount >= 1 && |draws| == |cfg.refs| && ValidDraws(draws)
    requires |tableDraws| == |cfg.refs| && ValidDraws(tableDraws)
    requires s.isRunning && s.currentStep == 0
    ensures Ticks(cfg, s, draws, tableDraws, |cfg.refs| + 1) == Complete(cfg, Play(cfg, s, draws, |cfg.refs|), tableDraws)
  {
    TimerServesReferences(cfg, s, draws, tableDraws, |cfg.refs|);
  }

  /** The loaded page is a consistent session at step zero that the timer
      leaves alone until Reset or Start, whatever the reference string. */
  lemma LoadedWaits(cfg: Config, u: real, tableDraws: seq<real>)
    requires cfg.frameCount >= 1 && 0.0 <= u < 1.0 && |tableDraws| == |cfg.refs| && ValidDraws(tableDraws)
    ensures Consistent(cfg, Loaded(cfg, tableDraws))
    ensures Tick(cfg, Loaded(cfg, tableDraws), u, tableDraws) == Loaded(cfg, tableDraws)
  {
  }

  // ---------------------------------------------------------------- clock and NFU

  /** The live step's clock and NFU settings are FIFO under another name:
      one step under either gives the session FIFO gives. */
  lemma StepAsFifo(cfg: Config, s: Session, u: real)
    requires cfg.algorithm == Clock || cfg.algorithm == Nfu
    requires s.currentStep < |cfg.refs| && cfg.frameCount >= 1 && 0.0 <= u < 1.0
    ensures SimulateStep(cfg, s, u) == SimulateStep(cfg.(algorithm := Fifo), s, u)
  {
    assert Place(cfg.algorithm, cfg.refs, cfg.frameCount, s.currentStep, s.frames, u)
        == Place(Fifo, cfg.refs, cfg.frameCount, s.currentStep, s.frames, u);
  }

  /** So any number of live steps under clock or NFU leaves exactly the
      session FIFO leaves: the same frames, counters, TLB guesses and
      history rows. */
  lemma {:induction false} PlayAsFifo(cfg: Config, s: Session, draws: seq<real>, n: nat)
    requires cfg.algorithm == Clock || cfg.algorithm == Nfu
    requires cfg.frameCount >= 1 && s.currentStep + n <= |cfg.refs| && |draws| == |cfg.refs| && ValidDraws(draws)
    ensures Play(cfg, s, draws, n) == Play(cfg.(algorithm := Fifo), s, draws, n)
    decreases n
  {
    if n > 0 {
      PlayAsFifo(cfg, s, draws, n - 1);
      var p := Play(cfg, s, draws, n - 1);
      StepAsFifo(cfg, p, draws[p.currentStep]);
    }
  }

  // ---------------------------------------------------------------- settings changes

  /** The settings panel changes the algorithm, the frame count, the
      reference string and the TLB settings without a reset. The invariant
      survives switching the algorithm or the TLB size, raising the frame
      count, and replacing the reference string by one that agrees with it
      on the steps already served. */
  lemma SettingsChangeKeepsConsistent(cfg: Config, s: Session, alg: Policy, frameCount: nat, refs: seq<Page>, tlbSize: nat)
    requires Consistent(cfg, s)
    requires frameCount >= cfg.frameCount
    requires s.currentStep <= |refs| && refs[..s.currentStep] == cfg.refs[..s.currentStep]
    ensures Consistent(cfg.(algorithm := alg, frameCount := frameCount, refs := refs, tlbSize := tlbSize), s)
  {
    var c := cfg.(algorithm := alg, frameCount := frameCount, refs := refs, tlbSize := tlbSize);
    forall k | 0 <= k < |s.history|
      ensures s.history[k].page == c.refs[k]
    {
      assert refs[..s.currentStep][k] == cfg.refs[..s.currentStep][k];
    }
  }

  /** Lowering the frame count does not give frames back: a step never
      shrinks the frames of a duplicate-free session, and one that already
      holds at least `frameCount` frames keeps exactly as many, so a session
      left with more frames than the new count keeps them until reset. */
  lemma FramesNeverShrink(cfg: Config, s: Session, u: real)
    requires s.currentStep < |cfg.refs| && cfg.frameCount >= 1 && 0.0 <= u < 1.0
    requires NoDups(s.frames)
    ensures |SimulateStep(cfg, s, u).frames| >= |s.frames|
    ensures |s.frames| >= cfg.frameCount ==> |SimulateStep(cfg, s, u).frames| == |s.frames|
  {
  }
}
