/** The live simulation behind the visualizer: one reference per step, a
    history of every step for the charts, an optional translation-lookaside
    buffer guess, and the comparison table filled in when a run completes.

    Unlike the batch simulator, the live step keeps no reference bits and no
    frequency counters: its clock and NFU settings replace the oldest frame,
    exactly as FIFO does. */
module Live {
  import opened Pages
  import opened Simulator
  import opened Optimality

  /** One row of the step history. */
  datatype HistoryItem = HistoryItem(
    step: nat,
    page: Page,
    frames: seq<Page>,
    fault: bool,
    replaced: Option<Page>,
    tlbHit: bool)

  /** One row of the comparison table; `efficiency` is the hit percentage,
      `None` where the source divides by an empty reference string. */
  datatype ComparisonItem = ComparisonItem(name: string, pageFaults: nat, pageHits: nat, efficiency: Option<real>)

  /** The settings a session runs under. The settings panel can change them
      mid-session without a reset; `LiveRules.SettingsChangeKeepsConsistent`
      and `LiveRules.FramesNeverShrink` say what survives such a change. */
  datatype Config = Config(algorithm: Policy, frameCount: nat, refs: seq<Page>, tlbEnabled: bool, tlbSize: nat)

  /** The provider's simulation state. */
  datatype Session = Session(
    isRunning: bool,
    isComplete: bool,
    currentStep: nat,
    frames: seq<Page>,
    pageFaults: nat,
    pageHits: nat,
    history: seq<HistoryItem>,
    tlbHits: nat,
    tlbMisses: nat,
    comparison: seq<ComparisonItem>)

  /** The policy whose batch run the live step reproduces. */
  function Emulated(alg: Policy): (r: Policy)
    ensures r != Clock && r != Nfu
    ensures alg == Clock || alg == Nfu ==> r == Fifo
    ensures alg != Clock && alg != Nfu ==> r == alg
  {
    if alg == Clock || alg == Nfu then Fifo else alg
  }

  // ---------------------------------------------------------------- session invariant

  /** How many history rows record a fault. */
  function FaultCount(h: seq<HistoryItem>): (c: nat)
    ensures c <= |h|
  {
    if |h| == 0 then 0 else FaultCount(h[..|h| - 1]) + (if h[|h| - 1].fault then 1 else 0)
  }

  /** How many history rows record a TLB hit. */
  function TlbHitCount(h: seq<HistoryItem>): (c: nat)
    ensures c <= |h|
  {
    if |h| == 0 then 0 else TlbHitCount(h[..|h| - 1]) + (if h[|h| - 1].tlbHit then 1 else 0)
  }

  /** What the counters, the frames and the history of a session owe each
      other while the configuration stays put. */
  ghost predicate Consistent(cfg: Config, s: Session) {
    && s.currentStep == |s.history| <= |cfg.refs|
    && (forall k :: 0 <= k < |s.history| ==> s.history[k].step == k && s.history[k].page == cfg.refs[k])
    && s.pageFaults == FaultCount(s.history)
    && s.pageFaults + s.pageHits == s.currentStep
    && (cfg.tlbEnabled ==> s.tlbHits == TlbHitCount(s.history) && s.tlbHits + s.tlbMisses == s.currentStep)
    && (!cfg.tlbEnabled ==> s.tlbHits == 0 && s.tlbMisses == 0)
    && |s.frames| <= cfg.frameCount
    && NoDups(s.frames)
    && s.frames == (if |s.history| == 0 then [] else s.history[|s.history| - 1].frames)
  }

  // ---------------------------------------------------------------- control

  /** `resetSimulation`: back to step zero; the comparison table stays. */
  function Reset(s: Session): (r: Session)
    ensures !r.isRunning && !r.isComplete && r.comparison == s.comparison
    ensures r.currentStep == 0 && r.history == [] && r.frames == []
  {
    Session(false, false, 0, [], 0, 0, [], 0, 0, s.comparison)
  }

  /** `startSimulation`: reset, then run. */
  function Start(s: Session): (r: Session)
    ensures r.isRunning && !r.isComplete && r.currentStep == 0 && r.comparison == s.comparison
  {
    Reset(s).(isRunning := true)
  }

  /** `pauseSimulation`: the timer stops and nothing else changes. */
  function Pause(s: Session): (r: Session)
    ensures !r.isRunning && r.(isRunning := s.isRunning) == s
  {
    s.(isRunning := false)
  }

  // ---------------------------------------------------------------- one step

  /** `history.slice(-tlbSize).map(item => item.page)`: the pages of the last
      `tlbSize` steps; a size of zero slices from `-0`, that is from the
      start, and so yields every step. */
  function RecentPages(history: seq<HistoryItem>, tlbSize: nat): (r: seq<Page>)
    ensures |r| == if tlbSize == 0 || tlbSize >= |history| then |history| else tlbSize
    ensures forall k :: 0 <= k < |r| ==> r[k] == history[|history| - |r| + k].page
  {
    var from := if tlbSize == 0 || tlbSize >= |history| then 0 else |history| - tlbSize;
    seq<Page>(|history| - from, k requires 0 <= k < |history| - from => history[from + k].page)
  }

  /** The frames after serving one reference, and the page evicted for it. */
  datatype Placement = Placement(frames: seq<Page>, replaced: Option<Page>)

  /** The frame update of the live step: a hit moves the page to the end
      under LRU and leaves the frames alone otherwise; a fault fills a free
      frame, or else evicts the oldest frame (FIFO, LRU, clock, NFU), the
      optimal policy's victim, or a random frame. */
  function Place(alg: Policy, refs: seq<Page>, frameCount: nat, step: nat, frames: seq<Page>, u: real): (r: Placement)
    requires step < |refs| && frameCount >= 1 && 0.0 <= u < 1.0
    ensures refs[step] in r.frames
    ensures refs[step] in frames ==> r.replaced == None && Elems(r.frames) == Elems(frames)
    ensures refs[step] !in frames && |frames| < frameCount ==> r.replaced == None && Elems(r.frames) == Elems(frames) + {refs[step]}
    ensures refs[step] !in frames && |frames| >= frameCount ==>
              && r.replaced.Some? && r.replaced.value in frames && |r.frames| == |frames|
              && (NoDups(frames) ==> Elems(r.frames) == Elems(frames) - {r.replaced.value} + {refs[step]})
    ensures NoDups(frames) && |frames| <= frameCount ==> NoDups(r.frames) && |r.frames| <= frameCount
  {
    var page := refs[step];
    if page in frames then
      var lruOrder := Without(frames, page) + [page];
      assert Elems(lruOrder) == Elems(frames);
      NoDupsSnoc(Without(frames, page), page);
      Placement(if alg == Lru then lruOrder else frames, None)
    else if |frames| < frameCount then
      var grown := frames + [page];
      assert Elems(grown) == Elems(frames) + {page};
      NoDupsSnoc(frames, page);
      Placement(grown, None)
    else
      match alg
      case Optimal =>
        var v := OptimalVictim(frames, refs, step + 1);
        SwapSlot(frames, v, page);
        Placement(frames[v := page], Some(frames[v]))
      case Random =>
        var v := RandomIndex(u, |frames|);
        SwapSlot(frames, v, page);
        Placement(frames[v := page], Some(frames[v]))
      case Fifo | Lru | Clock | Nfu =>
        var shifted := frames[1..] + [page];
        assert page in shifted && forall x :: x in shifted ==> x in frames || x == page;
        assert NoDups(frames) ==> NoDups(shifted) && Elems(shifted) == Elems(frames) - {frames[0]} + {page} by {
          if NoDups(frames) {
            ShiftPush(frames, page);
          }
        }
        Placement(shifted, Some(frames[0]))
  }

  /** `ReplaceSlot` for callers that only know the frames may repeat. */
  lemma SwapSlot(s: seq<Page>, k: nat, p: Page)
    requires k < |s| && p !in s
    ensures NoDups(s) ==> NoDups(s[k := p]) && Elems(s[k := p]) == Elems(s) - {s[k]} + {p}
    ensures p in s[k := p] && forall x :: x in s[k := p] ==> x in s || x == p
  {
    if NoDups(s) {
      ReplaceSlot(s, k, p);
    }
    assert s[k := p][k] == p;
  }

  /** `simulateStep`: serve the reference at `currentStep`, count it as a
      fault or a hit, guess a TLB hit from the recent history when the TLB
      is on, and append a history row; `u` is the value `Math.random()`
      returns if the random policy has to pick a victim. */
  function SimulateStep(cfg: Config, s: Session, u: real): (r: Session)
    requires s.currentStep < |cfg.refs| && cfg.frameCount >= 1 && 0.0 <= u < 1.0
    ensures var page := cfg.refs[s.currentStep];
            var fault := page !in s.frames;
            var tlbHit := cfg.tlbEnabled && page in RecentPages(s.history, cfg.tlbSize);
            && r.currentStep == s.currentStep + 1
            && page in r.frames
            && r.pageFaults == s.pageFaults + (if fault then 1 else 0)
            && r.pageHits == s.pageHits + (if fault then 0 else 1)
            && r.tlbHits == s.tlbHits + (if tlbHit then 1 else 0)
            && r.tlbMisses == s.tlbMisses + (if cfg.tlbEnabled && !tlbHit then 1 else 0)
            && |r.history| == |s.history| + 1 && r.history[..|s.history|] == s.history
            && r.history[|s.history|].step == s.currentStep
            && r.history[|s.history|].page == page
            && r.history[|s.history|].frames == r.frames
            && r.history[|s.history|].fault == fault
            && r.history[|s.history|].tlbHit == tlbHit
            && (r.history[|s.history|].replaced.Some? <==> fault && |s.frames| >= cfg.frameCount)
    ensures r.isRunning == s.isRunning && r.isComplete == s.isComplete && r.comparison == s.comparison
  {
    var page := cfg.refs[s.currentStep];
    var tlbHit := cfg.tlbEnabled && page in RecentPages(s.history, cfg.tlbSize);
    var placed := Place(cfg.algorithm, cfg.refs, cfg.frameCount, s.currentStep, s.frames, u);
    var fault := page !in s.frames;
    var item := HistoryItem(s.currentStep, page, placed.frames, fault, placed.replaced, tlbHit);
    assert (s.history + [item])[..|s.history|] == s.history;
    s.(frames := placed.frames,
       pageFaults := if fault then s.pageFaults + 1 else s.pageFaults,
       pageHits := if fault then s.pageHits else s.pageHits + 1,
       tlbHits := if tlbHit then s.tlbHits + 1 else s.tlbHits,
       tlbMisses := if cfg.tlbEnabled && !tlbHit then s.tlbMisses + 1 else s.tlbMisses,
       history := s.history + [item],
       currentStep := s.currentStep + 1)
  }

  /** `n` consecutive steps from `s`, step `k` drawing `draws[k]`. */
  function Play(cfg: Config, s: Session, draws: seq<real>, n: nat): (r: Session)
    requires cfg.frameCount >= 1 && s.currentStep + n <= |cfg.refs| && |draws| == |cfg.refs| && ValidDraws(draws)
    ensures r.currentStep == s.currentStep + n
    ensures r.isRunning == s.isRunning && r.isComplete == s.isComplete && r.comparison == s.comparison
    decreases n
  {
    if n == 0 then s
    else
      var p := Play(cfg, s, draws, n - 1);
      SimulateStep(cfg, p, draws[p.currentStep])
  }

  // ---------------------------------------------------------------- completion

  /** The column header of a policy in the comparison table: its identifier
      in upper case. */
  function Name(alg: Policy): (r: string)
    ensures Lower(r) == Tag(alg)
    ensures |r| == |Tag(alg)| && forall i :: 0 <= i < |r| ==> !('a' <= r[i] <= 'z')
  {
    var t := Tag(alg);
    var r := Upper(t);
    assert Lower(r) == t;
    r
  }

  /** The policies in the order the comparison runs them. */
  const Lineup: seq<Policy> := [Fifo, Lru, Optimal, Clock, Nfu, Random]

  /** `(hits / length) * 100` as the comparison computes it, before
      `toFixed(2)`; an empty reference string divides by zero. */
  function HitPercent(hits: nat, length: nat): (r: Option<real>)
    ensures length == 0 <==> r == None
    ensures hits <= length && length > 0 ==> 0.0 <= r.value <= 100.0
  {
    if length == 0 then None
    else
      var ratio := hits as real / length as real;
      assert hits <= length ==> ratio <= 1.0;
      Some(ratio * 100.0)
  }

  /** `runComparison`: every policy of the batch simulator over the same
      references and frames, in the order FIFO, LRU, OPTIMAL, CLOCK, NFU,
      RANDOM; the random policy draws `draws`. */
  function RunComparison(refs: seq<Page>, frameCount: nat, draws: seq<real>): (r: seq<ComparisonItem>)
    requires frameCount >= 1 && |draws| == |refs| && ValidDraws(draws)
    ensures |r| == |Lineup|
    ensures forall i :: 0 <= i < |r| ==>
              && Lower(r[i].name) == Tag(Lineup[i])
              && r[i].pageFaults == SimulateAlgorithm(Lineup[i], refs, frameCount, draws).pageFaults
              && r[i].pageHits == SimulateAlgorithm(Lineup[i], refs, frameCount, draws).pageHits
              && r[i].pageFaults + r[i].pageHits == |refs|
              && r[i].efficiency == HitPercent(r[i].pageHits, |refs|)
              && (|refs| == 0 <==> r[i].efficiency == None)
              && (|refs| > 0 ==> 0.0 <= r[i].efficiency.value <= 100.0)
    ensures forall i :: 0 <= i < |r| ==> r[2].pageFaults <= r[i].pageFaults
  {
    var rows := seq(|Lineup|, i requires 0 <= i < |Lineup| =>
      var o := SimulateAlgorithm(Lineup[i], refs, frameCount, draws);
      ComparisonItem(Name(Lineup[i]), o.pageFaults, o.pageHits, HitPercent(o.pageHits, |refs|)));
    forall i | 0 <= i < |rows|
      ensures rows[2].pageFaults <= rows[i].pageFaults
    {
      OptimalNeverWorse(Lineup[i], refs, frameCount, draws, draws);
    }
    rows
  }

  /** The session once the last reference has been served: complete, no
      longer running, and holding the comparison table, which the source
      recomputes only when the session turns complete. `tableDraws` are the
      values `Math.random()` returns to the comparison's random run; they
      are drawn afresh, independently of the live steps' draws. */
  function Complete(cfg: Config, s: Session, tableDraws: seq<real>): (r: Session)
    requires cfg.frameCount >= 1 && |tableDraws| == |cfg.refs| && ValidDraws(tableDraws)
    ensures r.isComplete && !r.isRunning
    ensures !s.isComplete ==> r.comparison == RunComparison(cfg.refs, cfg.frameCount, tableDraws)
    ensures s.isComplete ==> r.comparison == s.comparison
    ensures r.(isComplete := s.isComplete, isRunning := s.isRunning, comparison := s.comparison) == s
  {
    s.(isComplete := true, isRunning := false,
       comparison := if s.isComplete then s.comparison else RunComparison(cfg.refs, cfg.frameCount, tableDraws))
  }

  /** The provider once the page has loaded. On mount the timer effect still
      sees an empty parsed reference string, so it marks the session
      complete at step zero; the `[isComplete]` effect then fills the
      comparison table for the parsed string. The Step button stays disabled
      until Reset or Start. */
  function Loaded(cfg: Config, tableDraws: seq<real>): (r: Session)
    requires cfg.frameCount >= 1 && |tableDraws| == |cfg.refs| && ValidDraws(tableDraws)
    ensures r.isComplete && !r.isRunning && r.currentStep == 0 && r.frames == [] && r.history == []
    ensures r.comparison == RunComparison(cfg.refs, cfg.frameCount, tableDraws)
  {
    Complete(cfg, Session(false, false, 0, [], 0, 0, [], 0, 0, []), tableDraws)
  }

  /** `stepSimulation`: serve the next reference, or finish when none is left. */
  function StepSimulation(cfg: Config, s: Session, u: real, tableDraws: seq<real>): (r: Session)
    requires cfg.frameCount >= 1 && 0.0 <= u < 1.0 && |tableDraws| == |cfg.refs| && ValidDraws(tableDraws)
    ensures s.currentStep < |cfg.refs| ==> r == SimulateStep(cfg, s, u)
    ensures s.currentStep >= |cfg.refs| ==> r == Complete(cfg, s, tableDraws)
  {
    if s.currentStep < |cfg.refs| then SimulateStep(cfg, s, u) else Complete(cfg, s, tableDraws)
  }

  /** The timer effect: while running, serve the next reference; once every
      reference is served, finish, whether running or not; otherwise wait. */
  function Tick(cfg: Config, s: Session, u: real, tableDraws: seq<real>): (r: Session)
    requires cfg.frameCount >= 1 && 0.0 <= u < 1.0 && |tableDraws| == |cfg.refs| && ValidDraws(tableDraws)
    ensures s.isRunning && s.currentStep < |cfg.refs| ==> r == SimulateStep(cfg, s, u)
    ensures s.currentStep >= |cfg.refs| ==> r == Complete(cfg, s, tableDraws)
    ensures !s.isRunning && s.currentStep < |cfg.refs| ==> r == s
  {
    if s.isRunning && s.currentStep < |cfg.refs| then SimulateStep(cfg, s, u)
    else if s.currentStep >= |cfg.refs| then Complete(cfg, s, tableDraws)
    else s
  }
}
