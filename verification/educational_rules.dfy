/** How the educational implementations relate to the batch simulator: FIFO,
    LRU and clock compute the same fault counts (and, up to the order the
    set is listed in, the same memory); the educational optimal policy picks
    the same victim as the simulator's on the same frame order and reaches
    the same, least, fault count; LFU is a demand-paging policy that evicts
    the least-used, then least-recently-used, page. */
module EducationalRules {
  import opened Pages
  import opened Simulator
  import opened SimulatorRules
  import opened Belady
  import opened Optimality
  import opened Educational

  // ---------------------------------------------------------------- FIFO

  /** A FIFO fault on a full memory drops the same head page on both sides
      and appends the new page. */
  lemma FifoEvictMatches(pages: seq<Page>, frameCount: nat, i: nat, u: real, e: FifoState, st: State)
    requires frameCount >= 1 && i < |pages| && 0.0 <= u < 1.0 && Valid(st, frameCount) && FifoValid(frameCount, e)
    requires e.memory == e.queue == st.memory && e.faults == st.faults
    requires pages[i] !in st.memory && |st.memory| >= frameCount
    ensures var e' := FifoStep(frameCount, e, pages[i]);
            var st' := Step(Fifo, pages, frameCount, i, u, st);
            e'.memory == e'.queue == st'.memory && e'.faults == st'.faults
  {
    EvictHeadAppend(Fifo, pages, frameCount, i, u, st);
    FifoStepKeepsOrder(frameCount, e, pages[i]);
  }

  /** One educational FIFO reference from a state that agrees with the
      simulator's agrees with one simulator iteration. */
  lemma FifoStepMatches(pages: seq<Page>, frameCount: nat, i: nat, u: real, e: FifoState, st: State)
    requires frameCount >= 1 && i < |pages| && 0.0 <= u < 1.0 && Valid(st, frameCount) && FifoValid(frameCount, e)
    requires e.memory == e.queue == st.memory && e.faults == st.faults
    ensures var e' := FifoStep(frameCount, e, pages[i]);
            var st' := Step(Fifo, pages, frameCount, i, u, st);
            e'.memory == e'.queue == st'.memory && e'.faults == st'.faults
  {
    if pages[i] !in e.memory && |e.memory| >= frameCount {
      FifoEvictMatches(pages, frameCount, i, u, e, st);
    }
  }

  /** The educational FIFO state and the simulator's agree: the set and the
      queue are both the simulator's memory, and the fault counts match. */
  predicate FifoAgrees(e: FifoState, st: State) {
    e.memory == e.queue == st.memory && e.faults == st.faults
  }

  /** Along an educational FIFO trace and a simulator FIFO trace from their
      initial states, the two agree at every position. */
  lemma {:induction false} FifoTracesAgree(pages: seq<Page>, frameCount: nat, draws: seq<real>, e: seq<FifoState>, t: seq<State>, n: nat)
    requires frameCount >= 1 && n <= |pages| && |e| == |t| == |pages| + 1
    requires e[0] == FifoState([], [], 0) && t[0] == Init(frameCount)
    requires forall k :: 0 <= k < |pages| ==> FifoLinked(pages, frameCount, e, k)
    requires forall k :: 0 <= k < |pages| ==> Linked(Fifo, pages, frameCount, draws, t, k)
    ensures FifoAgrees(e[n], t[n])
    decreases n
  {
    if n > 0 {
      FifoTracesAgree(pages, frameCount, draws, e, t, n - 1);
      assert FifoLinked(pages, frameCount, e, n - 1) && Linked(Fifo, pages, frameCount, draws, t, n - 1);
      FifoStepMatches(pages, frameCount, n - 1, draws[n - 1], e[n - 1], t[n - 1]);
    }
  }

  /** `fifoAlgorithm` reports the simulator's FIFO fault count and its final
      memory, in the same order. */
  lemma EduFifoIsSimulatorFifo(pages: seq<Page>, frameCount: nat, draws: seq<real>)
    requires frameCount >= 1 && |draws| == |pages| && ValidDraws(draws)
    ensures EduFifo(pages, frameCount).pageFaults == SimulateAlgorithm(Fifo, pages, frameCount, draws).pageFaults
    ensures EduFifo(pages, frameCount).finalMemory == Run(Fifo, pages, frameCount, draws, |pages|).memory
  {
    var e, t := FifoTrace(pages, frameCount), Trace(Fifo, pages, frameCount, draws);
    FifoTraceLinked(pages, frameCount);
    TraceLinked(Fifo, pages, frameCount, draws);
    FifoTracesAgree(pages, frameCount, draws, e, t, |pages|);
  }

  // ---------------------------------------------------------------- LRU

  /** The educational LRU state and the simulator's agree: the usage list is
      the simulator's memory, the set holds the same pages, and the fault
      counts are equal. */
  predicate LruAgrees(e: LruState, st: State) {
    LruView(e.recentlyUsed, Elems(e.memory), e.faults) == LruView(st.memory, Elems(st.memory), st.faults)
  }

  /** What the two LRU models are compared on: the recency order, the pages
      held and the fault count. */
  datatype LruView = LruView(order: seq<Page>, held: set<Page>, faults: nat)

  /** One educational LRU reference from a state that agrees with the
      simulator's agrees with one simulator iteration. */
  lemma LruStepMatches(pages: seq<Page>, frameCount: nat, i: nat, u: real, e: LruState, st: State)
    requires frameCount >= 1 && i < |pages| && 0.0 <= u < 1.0
    ensures Valid(st, frameCount) && LruValid(frameCount, e) && LruAgrees(e, st) ==>
            LruAgrees(LruStep(frameCount, e, pages[i]), Step(Lru, pages, frameCount, i, u, st))
  {
    var page := pages[i];
    if Valid(st, frameCount) && LruValid(frameCount, e) && LruAgrees(e, st) {
      assert page in e.memory <==> page in Elems(e.recentlyUsed);
      if page in e.memory {
        var r := Touch(e.recentlyUsed, page);
        assert r == r[..|r| - 1] + [r[|r| - 1]] == Without(st.memory, page) + [page];
        assert Elems(r) == Elems(e.memory);
        assert page in st.memory;
      } else {
        assert page !in st.memory;
        NoDupsCard(e.memory);
        NoDupsCard(st.memory);
        if |st.memory| >= frameCount {
          ShiftPush(st.memory, page);
        } else {
          assert Elems(st.memory + [page]) == Elems(st.memory) + {page};
        }
      }
    }
  }

  /** Along an educational LRU trace and a simulator LRU trace from their
      initial states, the two agree at every position. */
  lemma {:induction false} LruTracesAgree(pages: seq<Page>, frameCount: nat, draws: seq<real>, e: seq<LruState>, t: seq<State>, n: nat)
    requires frameCount >= 1 && n <= |pages| && |e| == |t| == |pages| + 1
    requires e[0] == LruState([], [], 0) && t[0] == Init(frameCount)
    requires forall k :: 0 <= k < |pages| ==> LruLinked(pages, frameCount, e, k)
    requires forall k :: 0 <= k < |pages| ==> Linked(Lru, pages, frameCount, draws, t, k)
    ensures LruAgrees(e[n], t[n])
    decreases n
  {
    if n > 0 {
      LruTracesAgree(pages, frameCount, draws, e, t, n - 1);
      assert LruLinked(pages, frameCount, e, n - 1) && Linked(Lru, pages, frameCount, draws, t, n - 1);
      LruStepMatches(pages, frameCount, n - 1, draws[n - 1], e[n - 1], t[n - 1]);
    }
  }

  /** `lruAlgorithm` reports the simulator's LRU fault count, and its final
      memory holds the simulator's final pages (listed in admission order
      rather than recency order). */
  lemma EduLruIsSimulatorLru(pages: seq<Page>, frameCount: nat, draws: seq<real>)
    requires frameCount >= 1 && |draws| == |pages| && ValidDraws(draws)
    ensures EduLru(pages, frameCount).pageFaults == SimulateAlgorithm(Lru, pages, frameCount, draws).pageFaults
    ensures Elems(EduLru(pages, frameCount).finalMemory) == Elems(Run(Lru, pages, frameCount, draws, |pages|).memory)
  {
    var e, t := LruTrace(pages, frameCount), Trace(Lru, pages, frameCount, draws);
    LruTraceLinked(pages, frameCount);
    TraceLinked(Lru, pages, frameCount, draws);
    LruTracesAgree(pages, frameCount, draws, e, t, |pages|);
  }


  // ---------------------------------------------------------------- clock

  /** What a clock state shows: the pages in frame order, one reference bit
      per frame with clear bits on the frames not yet filled, the hand and the
      fault count. */
  datatype ClockView = ClockView(pages: seq<Page>, bits: seq<bool>, pointer: nat, faults: nat)

  /** The simulator's clock state as a view. */
  function SimView(st: State): (v: ClockView)
    ensures v.pages == st.memory && v.bits == st.flags
  {
    ClockView(st.memory, st.flags, st.pointer, st.faults)
  }

  /** The educational clock state as a view on `width` frames. */
  function EduView(e: ClockState, width: nat): (v: ClockView)
    ensures v.pages == PagesOf(e.memory) && v.pointer == e.pointer && v.faults == e.faults
    ensures |e.memory| <= width ==> v.bits == RefsOf(e.memory) + Clear(width - |e.memory|)
  {
    var pad := if |e.memory| <= width then width - |e.memory| else 0;
    ClockView(PagesOf(e.memory), RefsOf(e.memory) + Clear(pad), e.pointer, e.faults)
  }

  /** An educational clock state and a simulator state describe the same
      clock: the same pages in the same frames, the same reference bits on
      them, clear bits on the frames not yet filled, the same hand and the
      same fault count. */
  predicate ClockAgrees(e: ClockState, st: State) {
    EduView(e, |st.flags|) == SimView(st)
  }

  /** The bits of frames not yet filled. */
  function Clear(n: nat): (r: seq<bool>)
    ensures |r| == n && forall k :: 0 <= k < n ==> !r[k]
  {
    seq(n, _ => false)
  }

  /** The frame search finds the frame `indexOf` finds among the pages. */
  lemma FindFrameIsIndexOf(m: seq<Frame>, page: Page)
    ensures FindFrame(m, page, 0) == IndexOf(PagesOf(m), page)
  {
  }

  /** The educational sweep over frame records clears the same bits and
      stops at the same frame as the simulator's sweep over its bit array. */
  lemma {:induction false} SweepMatches(m: seq<Frame>, pointer: nat, frameCount: nat)
    requires |m| == frameCount && pointer < frameCount
    ensures var sw := EduSweep(m, pointer, frameCount);
            var cs := ClockSweep(RefsOf(m), pointer);
            RefsOf(sw.memory) == cs.flags && sw.pointer == cs.pointer
    decreases CountSet(RefsOf(m))
  {
    if m[pointer].ref {
      var cleared := m[pointer := m[pointer].(ref := false)];
      assert RefsOf(cleared) == RefsOf(m)[pointer := false];
      ClearOne(RefsOf(m), pointer);
      SweepMatches(cleared, (pointer + 1) % frameCount, frameCount);
    }
  }

  /** A clock hit sets the same bit on both sides. */
  lemma ClockHitMatches(pages: seq<Page>, frameCount: nat, i: nat, u: real, e: ClockState, st: State)
    requires frameCount >= 1 && i < |pages| && 0.0 <= u < 1.0 && Valid(st, frameCount) && ClockValid(frameCount, e)
    requires ClockAgrees(e, st) && pages[i] in st.memory
    ensures ClockAgrees(ClockStep(frameCount, e, pages[i]), Step(Clock, pages, frameCount, i, u, st))
  {
    var page := pages[i];
    var e' := ClockStep(frameCount, e, page);
    var k := IndexOf(st.memory, page);
    FindFrameIsIndexOf(e.memory, page);
    ClockHitSetsBit(pages, frameCount, i, u, st, k);
    var pad := Clear(|st.flags| - |e.memory|);
    assert e'.memory == e.memory[k := e.memory[k].(ref := true)];
    assert PagesOf(e'.memory) == PagesOf(e.memory);
    assert RefsOf(e'.memory) == RefsOf(e.memory)[k := true];
    assert (RefsOf(e.memory) + pad)[k := true] == RefsOf(e.memory)[k := true] + pad;
  }

  /** A clock fault with a free frame fills the same frame on both sides. */
  lemma ClockAdmitMatches(pages: seq<Page>, frameCount: nat, i: nat, u: real, e: ClockState, st: State)
    requires frameCount >= 1 && i < |pages| && 0.0 <= u < 1.0 && Valid(st, frameCount) && ClockValid(frameCount, e)
    requires ClockAgrees(e, st) && pages[i] !in st.memory && |st.memory| < frameCount
    ensures ClockAgrees(ClockStep(frameCount, e, pages[i]), Step(Clock, pages, frameCount, i, u, st))
  {
    var page := pages[i];
    var e' := ClockStep(frameCount, e, page);
    FindFrameIsIndexOf(e.memory, page);
    ClockAdmitSetsBit(pages, frameCount, i, u, st);
    var pad := Clear(|st.flags| - |e.memory|);
    assert e'.memory == e.memory + [Frame(page, true)];
    assert PagesOf(e'.memory) == PagesOf(e.memory) + [page];
    assert RefsOf(e'.memory) == RefsOf(e.memory) + [true];
    assert (RefsOf(e.memory) + pad)[|e.memory| := true] == (RefsOf(e.memory) + [true]) + Clear(|pad| - 1);
  }

  /** A clock fault on a full memory sweeps the same bits clear and
      overwrites the same frame on both sides. */
  lemma ClockReplaceMatches(pages: seq<Page>, frameCount: nat, i: nat, u: real, e: ClockState, st: State)
    requires frameCount >= 1 && i < |pages| && 0.0 <= u < 1.0 && Valid(st, frameCount) && ClockValid(frameCount, e)
    requires ClockAgrees(e, st) && pages[i] !in st.memory && |st.memory| >= frameCount
    ensures ClockAgrees(ClockStep(frameCount, e, pages[i]), Step(Clock, pages, frameCount, i, u, st))
  {
    var page := pages[i];
    var e' := ClockStep(frameCount, e, page);
    var st' := Step(Clock, pages, frameCount, i, u, st);
    FindFrameIsIndexOf(e.memory, page);
    assert RefsOf(e.memory) == st.flags;
    SweepMatches(e.memory, e.pointer, frameCount);
    var sw := EduSweep(e.memory, e.pointer, frameCount);
    var cs := ClockSweep(st.flags, st.pointer);
    assert e'.memory == sw.memory[sw.pointer := Frame(page, true)];
    assert st'.memory == st.memory[cs.pointer := page];
    assert st'.flags == cs.flags[cs.pointer := true];
    assert PagesOf(e'.memory) == PagesOf(sw.memory)[sw.pointer := page];
    assert RefsOf(e'.memory) == RefsOf(sw.memory)[sw.pointer := true];
  }

  /** One educational clock reference from an agreeing state agrees with one
      simulator iteration. */
  lemma ClockStepMatches(pages: seq<Page>, frameCount: nat, i: nat, u: real, e: ClockState, st: State)
    requires frameCount >= 1 && i < |pages| && 0.0 <= u < 1.0 && Valid(st, frameCount) && ClockValid(frameCount, e)
    requires ClockAgrees(e, st)
    ensures ClockAgrees(ClockStep(frameCount, e, pages[i]), Step(Clock, pages, frameCount, i, u, st))
  {
    if pages[i] in st.memory {
      ClockHitMatches(pages, frameCount, i, u, e, st);
    } else if |st.memory| < frameCount {
      ClockAdmitMatches(pages, frameCount, i, u, e, st);
    } else {
      ClockReplaceMatches(pages, frameCount, i, u, e, st);
    }
  }

  /** Along an educational clock trace and a simulator clock trace from
      their initial states, the two agree at every position. */
  lemma {:induction false} ClockTracesAgree(pages: seq<Page>, frameCount: nat, draws: seq<real>, e: seq<ClockState>, t: seq<State>, n: nat)
    requires frameCount >= 1 && n <= |pages| && |e| == |t| == |pages| + 1
    requires e[0] == ClockState([], 0, 0) && t[0] == Init(frameCount)
    requires forall k :: 0 <= k < |pages| ==> ClockLinked(pages, frameCount, e, k)
    requires forall k :: 0 <= k < |pages| ==> Linked(Clock, pages, frameCount, draws, t, k)
    ensures ClockAgrees(e[n], t[n])
    decreases n
  {
    if n == 0 {
      assert EduView(e[0], |t[0].flags|).bits == SimView(t[0]).bits;
    } else {
      ClockTracesAgree(pages, frameCount, draws, e, t, n - 1);
      assert ClockLinked(pages, frameCount, e, n - 1) && Linked(Clock, pages, frameCount, draws, t, n - 1);
      ClockStepMatches(pages, frameCount, n - 1, draws[n - 1], e[n - 1], t[n - 1]);
    }
  }

  /** `clockAlgorithm` reports the simulator's clock fault count and its
      final memory, frame by frame. */
  lemma EduClockIsSimulatorClock(pages: seq<Page>, frameCount: nat, draws: seq<real>)
    requires frameCount >= 1 && |draws| == |pages| && ValidDraws(draws)
    ensures EduClock(pages, frameCount).pageFaults == SimulateAlgorithm(Clock, pages, frameCount, draws).pageFaults
    ensures EduClock(pages, frameCount).finalMemory == Run(Clock, pages, frameCount, draws, |pages|).memory
  {
    var e, t := ClockTrace(pages, frameCount), Trace(Clock, pages, frameCount, draws);
    ClockTraceLinked(pages, frameCount);
    TraceLinked(Clock, pages, frameCount, draws);
    ClockTracesAgree(pages, frameCount, draws, e, t, |pages|);
  }

  // ---------------------------------------------------------------- optimal

  /** The educational look-ahead and `indexOf` find the same next request,
      with "never again" written as the end of the string rather than -1. */
  lemma ScanAheadIsIndexFrom(pages: seq<Page>, p: Page, from: nat)
    requires from <= |pages|
    ensures ScanAhead(pages, p, from) == if IndexFrom(pages, p, from) == -1 then |pages| else IndexFrom(pages, p, from)
    ensures ScanAhead(pages, p, from) == from + NextIdx(pages[from..], p)
  {
    NextIdxFrom(pages, p, from);
  }

  /** Slot `v` is the first slot whose page's next request lies farthest
      ahead, counting "never again" as farthest of all. */
  predicate FirstLatest(memory: seq<Page>, pages: seq<Page>, from: nat, v: nat)
    requires from <= |pages|
  {
    && v < |memory|
    && (forall j :: 0 <= j < |memory| ==> ScanAhead(pages, memory[j], from) <= ScanAhead(pages, memory[v], from))
    && (forall j :: 0 <= j < v ==> ScanAhead(pages, memory[j], from) < ScanAhead(pages, memory[v], from))
  }

  /** At most one slot is the first latest one. */
  lemma FirstLatestUnique(memory: seq<Page>, pages: seq<Page>, from: nat, v: nat, w: nat)
    requires from <= |pages| && FirstLatest(memory, pages, from, v) && FirstLatest(memory, pages, from, w)
    ensures v == w
  {
    var a, b := ScanAhead(pages, memory[v], from), ScanAhead(pages, memory[w], from);
    assert a == b;
  }

  /** On the same frame order, the educational optimal policy and the
      simulator's pick the same victim. */
  lemma EduVictimIsSimulatorVictim(memory: seq<Page>, pages: seq<Page>, from: nat)
    requires 0 < |memory| && from <= |pages|
    ensures EduOptimalScan(memory, pages, from, 0, -1, 0) == OptimalVictim(memory, pages, from)
  {
    var v := EduOptimalScan(memory, pages, from, 0, -1, 0);
    var w := OptimalVictim(memory, pages, from);
    OptimalVictimChoice(memory, pages, from);
    forall j | 0 <= j < |memory| ensures ScanAhead(pages, memory[j], from) == if IndexFrom(pages, memory[j], from) == -1 then |pages| else IndexFrom(pages, memory[j], from) {
      ScanAheadIsIndexFrom(pages, memory[j], from);
    }
    assert FirstLatest(memory, pages, from, v);
    assert FirstLatest(memory, pages, from, w);
    FirstLatestUnique(memory, pages, from, v, w);
  }

  /** The educational victim is a resident page whose next request is at
      least as far ahead as every other resident page's. */
  lemma EduVictimIsFarthest(memory: seq<Page>, pages: seq<Page>, from: nat)
    requires 0 < |memory| && from <= |pages|
    ensures var v := EduOptimalScan(memory, pages, from, 0, -1, 0);
            forall y :: y in Elems(memory) ==> NextIdx(pages[from..], y) <= NextIdx(pages[from..], memory[v])
  {
    var v := EduOptimalScan(memory, pages, from, 0, -1, 0);
    forall y | y in Elems(memory) ensures NextIdx(pages[from..], y) <= NextIdx(pages[from..], memory[v]) {
      var k :| 0 <= k < |memory| && memory[k] == y;
      ScanAheadIsIndexFrom(pages, y, from);
      ScanAheadIsIndexFrom(pages, memory[v], from);
    }
  }

  /** The educational optimal policy is demand paging. */
  lemma EduOptMoves(pages: seq<Page>, frameCount: nat, i: nat, st: OptState)
    requires frameCount >= 1 && i < |pages| && OptValid(frameCount, st)
    ensures Moves(frameCount, Elems(st.memory), pages[i], Elems(OptStep(pages, frameCount, i, st).memory))
  {
    var page := pages[i];
    NoDupsCard(st.memory);
    if page !in st.memory && |st.memory| >= frameCount {
      var v := EduOptimalScan(st.memory, pages, i + 1, 0, -1, 0);
      WithoutElems(st.memory, st.memory[v]);
      assert st.memory[v] in Elems(st.memory);
    } else if page !in st.memory {
      assert Elems(st.memory + [page]) == Elems(st.memory) + {page};
    }
  }

  /** From its `n`-th reference on, the educational optimal policy faults no
      more often than any count reachable from the same resident set. */
  lemma {:induction false} EduOptAttains(pages: seq<Page>, frameCount: nat, t: seq<OptState>, n: nat, f: nat)
    requires |t| == |pages| + 1 && n <= |pages|
    requires forall k :: 0 <= k < |pages| ==> OptLinked(pages, frameCount, t, k)
    requires Achievable(frameCount, Elems(t[n].memory), pages[n..], f)
    ensures t[|pages|].faults <= t[n].faults + f
    decreases |pages| - n
  {
    if n < |pages| {
      assert OptLinked(pages, frameCount, t, n);
      var g := EduOptGreedy(pages, frameCount, n, t[n], f);
      EduOptAttains(pages, frameCount, t, n + 1, g);
    }
  }

  /** One educational optimal step costs no more than the first move of any
      demand-paging schedule from the same resident set, and leaves a
      schedule for the rest that is no costlier. */
  lemma EduOptGreedy(pages: seq<Page>, frameCount: nat, n: nat, st: OptState, f: nat) returns (g: nat)
    requires frameCount >= 1 && n < |pages| && OptValid(frameCount, st)
    requires Achievable(frameCount, Elems(st.memory), pages[n..], f)
    ensures Achievable(frameCount, Elems(OptStep(pages, frameCount, n, st).memory), pages[n + 1..], g)
    ensures OptStep(pages, frameCount, n, st).faults + g <= st.faults + f
  {
    var c, q, rest := Elems(st.memory), pages[n], pages[n + 1..];
    assert pages[n..] == [q] + rest;
    EduOptMoves(pages, frameCount, n, st);
    NoDupsCard(st.memory);
    if q in c || |c| < frameCount {
      var c';
      c', g := Unfold(frameCount, c, q, rest, f);
    } else {
      var v := EduOptimalScan(st.memory, pages, n + 1, 0, -1, 0);
      EduVictimIsFarthest(st.memory, pages, n + 1);
      WithoutElems(st.memory, st.memory[v]);
      g := FarthestStep(frameCount, c, q, rest, st.memory[v], f);
    }
  }

  /** Along a linked educational optimal trace, consecutive resident sets are
      legal moves. */
  lemma EduOptTraceMoves(pages: seq<Page>, frameCount: nat, t: seq<OptState>, cs: seq<set<Page>>, fs: seq<nat>)
    requires |t| == |cs| == |fs| == |pages| + 1
    requires forall k :: 0 <= k < |pages| ==> OptLinked(pages, frameCount, t, k)
    requires forall i :: 0 <= i <= |pages| ==> cs[i] == Elems(t[i].memory) && fs[i] == t[i].faults
    ensures forall i :: 0 <= i < |pages| ==> Moves(frameCount, cs[i], pages[i], cs[i + 1])
    ensures forall i :: 0 <= i < |pages| ==> fs[i + 1] == if pages[i] in cs[i] then fs[i] else fs[i] + 1
  {
    forall i | 0 <= i < |pages|
      ensures Moves(frameCount, cs[i], pages[i], cs[i + 1])
      ensures fs[i + 1] == if pages[i] in cs[i] then fs[i] else fs[i] + 1
    {
      assert OptLinked(pages, frameCount, t, i);
      EduOptMoves(pages, frameCount, i, t[i]);
    }
  }

  /** The fault count of `optimalAlgorithm` is reachable by demand paging. */
  lemma EduOptAchievable(pages: seq<Page>, frameCount: nat)
    requires frameCount >= 1
    ensures Achievable(frameCount, {}, pages, EduOptimal(pages, frameCount).pageFaults)
  {
    var t := OptTrace(pages, frameCount);
    OptTraceLinked(pages, frameCount);
    var cs := seq(|pages| + 1, i requires 0 <= i <= |pages| => Elems(t[i].memory));
    var fs := seq(|pages| + 1, i requires 0 <= i <= |pages| => t[i].faults);
    EduOptTraceMoves(pages, frameCount, t, cs, fs);
    assert cs[0] == {} by {
      assert Elems([]) == {};
    }
    TraceFromEmpty(frameCount, cs, fs, pages);
  }

  /** `optimalAlgorithm` reports the same fault count as the simulator's
      optimal policy, the least any demand-paging policy reaches, although
      the two keep their frames in different orders and can end with
      different pages resident. */
  lemma EduOptimalIsSimulatorOptimal(pages: seq<Page>, frameCount: nat, draws: seq<real>)
    requires frameCount >= 1 && |draws| == |pages| && ValidDraws(draws)
    ensures EduOptimal(pages, frameCount).pageFaults == SimulateAlgorithm(Optimal, pages, frameCount, draws).pageFaults
  {
    var e := EduOptimal(pages, frameCount).pageFaults;
    var s := SimulateAlgorithm(Optimal, pages, frameCount, draws).pageFaults;
    EduOptAchievable(pages, frameCount);
    OptimalIsLeast(pages, frameCount, draws, e);
    assert Elems([]) == {};
    assert pages[0..] == pages;
    var t := OptTrace(pages, frameCount);
    OptTraceLinked(pages, frameCount);
    EduOptAttains(pages, frameCount, t, 0, s);
  }

  /** The third reference of the example: 1 is never needed again and is
      listed first, so it goes and 3 is listed after 2. */
  lemma EduExampleThird()
    ensures OptStep([1, 2, 3, 4], 2, 2, OptState([1, 2], 2)) == OptState([2, 3], 3)
  {
    EduScanExample([1, 2, 3, 4], [1, 2], 3);
    WithoutResident([1, 2], 0);
  }

  /** The fourth reference: 2 is listed first and never needed again. */
  lemma EduExampleFourth()
    ensures OptStep([1, 2, 3, 4], 2, 3, OptState([2, 3], 3)) == OptState([3, 4], 4)
  {
    EduScanExample([1, 2, 3, 4], [2, 3], 4);
    WithoutResident([2, 3], 0);
  }

  /** The educational optimal policy on 1, 2, 3, 4 with two frames: the set
      lists 2 before 3 when page 4 arrives, so page 2 goes. */
  lemma EduOptimalExample()
    ensures EduOptimal([1, 2, 3, 4], 2) == EduResult(4, [3, 4])
  {
    var pages: seq<Page> := [1, 2, 3, 4];
    assert OptRun(pages, 2, 2) == OptState([1, 2], 2) by {
      assert OptRun(pages, 2, 1) == OptState([1], 1);
    }
    EduExampleThird();
    EduExampleFourth();
  }

  /** Whenever the first listed page is never requested again, the
      educational scan stops at it. */
  lemma EduScanExample(pages: seq<Page>, memory: seq<Page>, from: nat)
    requires 0 < |memory| && from <= |pages| && memory[0] !in pages[from..]
    ensures EduOptimalScan(memory, pages, from, 0, -1, 0) == 0
  {
    ScanAheadIsIndexFrom(pages, memory[0], from);
    assert ScanAhead(pages, memory[0], from) == |pages|;
  }

  /** The simulator's third reference of the example: 1, in slot 0, is never
      needed again, so 3 takes slot 0. */
  lemma SimExampleThird(u: real, st: State)
    requires 0.0 <= u < 1.0 && Valid(st, 2) && st.memory == [1, 2]
    ensures Step(Optimal, [1, 2, 3, 4], 2, 2, u, st).memory == [3, 2]
    ensures Step(Optimal, [1, 2, 3, 4], 2, 2, u, st).faults == st.faults + 1
  {
    assert IndexFrom([1, 2, 3, 4], 1, 3) == -1;
    assert OptimalVictim([1, 2], [1, 2, 3, 4], 3) == 0;
  }

  /** The fourth reference: 3, now in slot 0, is never needed again. */
  lemma SimExampleFourth(u: real, st: State)
    requires 0.0 <= u < 1.0 && Valid(st, 2) && st.memory == [3, 2]
    ensures Step(Optimal, [1, 2, 3, 4], 2, 3, u, st).memory == [4, 2]
    ensures Step(Optimal, [1, 2, 3, 4], 2, 3, u, st).faults == st.faults + 1
  {
    assert IndexFrom([1, 2, 3, 4], 3, 4) == -1;
    assert OptimalVictim([3, 2], [1, 2, 3, 4], 4) == 0;
  }

  /** The simulator's optimal policy on the same input: page 3 took slot 0,
      which is the first slot looked at when page 4 arrives, so page 3 goes. */
  lemma SimOptimalExample(draws: seq<real>)
    requires |draws| == 4 && ValidDraws(draws)
    ensures Run(Optimal, [1, 2, 3, 4], 2, draws, 4).memory == [4, 2]
    ensures Run(Optimal, [1, 2, 3, 4], 2, draws, 4).faults == 4
  {
    var pages: seq<Page> := [1, 2, 3, 4];
    var r2 := Run(Optimal, pages, 2, draws, 2);
    assert r2.memory == [1, 2] && r2.faults == 2 by {
      assert Run(Optimal, pages, 2, draws, 1).memory == [1];
    }
    SimExampleThird(draws[2], r2);
    SimExampleFourth(draws[3], Run(Optimal, pages, 2, draws, 3));
  }

  /** The two optimal implementations break ties between pages never needed
      again by frame order, and their frame orders differ: the simulator
      overwrites the victim's slot, the educational set appends the new page
      last. On 1, 2, 3, 4 with two frames both fault four times, yet they end
      with different pages resident. */
  lemma OptimalTieBreaksDiffer(draws: seq<real>)
    requires |draws| == 4 && ValidDraws(draws)
    ensures EduOptimal([1, 2, 3, 4], 2).pageFaults == Run(Optimal, [1, 2, 3, 4], 2, draws, 4).faults
    ensures Elems(EduOptimal([1, 2, 3, 4], 2).finalMemory) != Elems(Run(Optimal, [1, 2, 3, 4], 2, draws, 4).memory)
  {
    EduOptimalExample();
    SimOptimalExample(draws);
    assert 3 in Elems([3, 4]) && 3 !in Elems([4, 2]);
  }

  // ---------------------------------------------------------------- LFU

  /** Deleting an entry removes exactly its page from the keys. */
  lemma DeleteAtKeys(m: seq<Entry>, v: nat)
    requires v < |m| && NoDups(Keys(m))
    ensures Elems(Keys(DeleteAt(m, v))) == Elems(Keys(m)) - {m[v].page}
  {
    var k := Keys(m);
    assert Keys(DeleteAt(m, v)) == Without(k, k[v]) by {
      WithoutResident(k, v);
      assert Keys(DeleteAt(m, v)) == k[..v] + k[v + 1..];
    }
    WithoutElems(k, k[v]);
  }

  /** A full map gives up exactly one of its keys to eviction. */
  lemma EvictDropsOneKey(frameCount: nat, st: LfuState) returns (gone: Page)
    requires frameCount >= 1 && LfuValid(frameCount, st) && |st.entries| >= frameCount
    ensures gone in Elems(Keys(st.entries))
    ensures Elems(Keys(Evict(frameCount, st))) == Elems(Keys(st.entries)) - {gone}
  {
    var kept := Evict(frameCount, st);
    var v: nat :| LeastUsed(st.entries, v) && kept == DeleteAt(st.entries, v);
    DeleteAtKeys(st.entries, v);
    gone := st.entries[v].page;
    assert Keys(st.entries)[v] == gone;
  }

  /** A fault leaves the kept keys and the new page. */
  lemma LfuFaultKeys(frameCount: nat, st: LfuState, page: Page)
    requires frameCount >= 1 && LfuValid(frameCount, st) && page !in Keys(st.entries)
    ensures Elems(Keys(LfuStep(frameCount, st, page).entries)) == Elems(Keys(Evict(frameCount, st))) + {page}
  {
    var kept := Evict(frameCount, st);
    KeysSnoc(kept, Entry(page, 1, st.time + 1));
    assert Elems(Keys(kept) + [page]) == Elems(Keys(kept)) + {page};
  }

  /** LFU is demand paging: a hit keeps the keys, a fault with room adds the
      page, a fault on a full map swaps one key for it. */
  lemma LfuMoves(frameCount: nat, st: LfuState, page: Page)
    requires frameCount >= 1 && LfuValid(frameCount, st)
    ensures Moves(frameCount, Elems(Keys(st.entries)), page, Elems(Keys(LfuStep(frameCount, st, page).entries)))
  {
    var c := Elems(Keys(st.entries));
    var c' := Elems(Keys(LfuStep(frameCount, st, page).entries));
    NoDupsCard(Keys(st.entries));
    if page in Keys(st.entries) {
      assert Keys(LfuStep(frameCount, st, page).entries) == Keys(st.entries);
    } else {
      LfuFaultKeys(frameCount, st, page);
      if |st.entries| >= frameCount {
        var gone := EvictDropsOneKey(frameCount, st);
        assert c' == c - {gone} + {page};
      }
    }
  }

  /** Along a linked LFU trace, consecutive key sets are legal moves. */
  lemma LfuTraceMoves(pages: seq<Page>, frameCount: nat, t: seq<LfuState>, cs: seq<set<Page>>, fs: seq<nat>)
    requires |t| == |cs| == |fs| == |pages| + 1
    requires forall k :: 0 <= k < |pages| ==> LfuLinked(pages, frameCount, t, k)
    requires forall i :: 0 <= i <= |pages| ==> cs[i] == Elems(Keys(t[i].entries)) && fs[i] == t[i].faults
    ensures forall i :: 0 <= i < |pages| ==> Moves(frameCount, cs[i], pages[i], cs[i + 1])
    ensures forall i :: 0 <= i < |pages| ==> fs[i + 1] == if pages[i] in cs[i] then fs[i] else fs[i] + 1
  {
    forall i | 0 <= i < |pages|
      ensures Moves(frameCount, cs[i], pages[i], cs[i + 1])
      ensures fs[i + 1] == if pages[i] in cs[i] then fs[i] else fs[i] + 1
    {
      assert LfuLinked(pages, frameCount, t, i);
      LfuMoves(frameCount, t[i], pages[i]);
    }
  }

  /** The resident key sets and running fault totals of an LFU run. */
  lemma LfuRunTrace(pages: seq<Page>, frameCount: nat) returns (cs: seq<set<Page>>, fs: seq<nat>)
    requires frameCount >= 1
    ensures |cs| == |pages| + 1 && |fs| == |pages| + 1
    ensures cs[0] == {} && fs[0] == 0
    ensures fs[|pages|] == EduLfu(pages, frameCount).pageFaults
    ensures forall i :: 0 <= i < |pages| ==> Moves(frameCount, cs[i], pages[i], cs[i + 1])
    ensures forall i :: 0 <= i < |pages| ==> fs[i + 1] == if pages[i] in cs[i] then fs[i] else fs[i] + 1
  {
    var t := LfuStates(pages, frameCount);
    LfuStatesLinked(pages, frameCount);
    cs := seq(|pages| + 1, i requires 0 <= i <= |pages| => Elems(Keys(t[i].entries)));
    fs := seq(|pages| + 1, i requires 0 <= i <= |pages| => t[i].faults);
    LfuTraceMoves(pages, frameCount, t, cs, fs);
    assert cs[0] == {} by {
      assert Keys([]) == [] && Elems([]) == {};
    }
  }

  /** The fault count of `lfuAlgorithm` is reachable by demand paging. */
  lemma LfuIsDemandPaging(pages: seq<Page>, frameCount: nat)
    requires frameCount >= 1
    ensures Achievable(frameCount, {}, pages, EduLfu(pages, frameCount).pageFaults)
  {
    var cs, fs := LfuRunTrace(pages, frameCount);
    TraceFromEmpty(frameCount, cs, fs, pages);
  }

  /** So the optimal policy never faults more often than LFU. */
  lemma OptimalBeatsLfu(pages: seq<Page>, frameCount: nat, draws: seq<real>)
    requires frameCount >= 1 && |draws| == |pages| && ValidDraws(draws)
    ensures SimulateAlgorithm(Optimal, pages, frameCount, draws).pageFaults <= EduLfu(pages, frameCount).pageFaults
  {
    LfuIsDemandPaging(pages, frameCount);
    OptimalIsLeast(pages, frameCount, draws, EduLfu(pages, frameCount).pageFaults);
  }

  /** At most one entry is least used: counts first, then time stamps, and
      no two entries share a time stamp. */
  lemma LeastUsedUnique(m: seq<Entry>, v: nat, w: nat)
    requires LeastUsed(m, v) && LeastUsed(m, w)
    ensures v == w
  {
    var a, b := m[v], m[w];
    assert v != w ==> (a.count < b.count || (a.count == b.count && a.time < b.time));
  }

  /** The position of the last reference to `p` among the first `n`, or -1
      when there is none. */
  function LastUse(pages: seq<Page>, n: nat, p: Page): (r: int)
    requires n <= |pages|
    ensures -1 <= r < n
    ensures r >= 0 ==> pages[r] == p
    ensures forall k :: r < k < n ==> pages[k] != p
  {
    if n == 0 then -1
    else if pages[n - 1] == p then n - 1
    else LastUse(pages, n - 1, p)
  }

  /** Every entry's time stamp is the position, counted from one, of the
      last reference to its page so far. */
  predicate LastUses(pages: seq<Page>, n: nat, m: seq<Entry>)
    requires n <= |pages|
  {
    forall j :: 0 <= j < |m| ==> m[j].time == LastUse(pages, n, m[j].page) + 1
  }

  /** Keeping only some of the entries keeps their time stamps last uses. */
  lemma LastUsesSub(pages: seq<Page>, n: nat, m: seq<Entry>, sub: seq<Entry>)
    requires n <= |pages| && LastUses(pages, n, m)
    requires forall j :: 0 <= j < |sub| ==> sub[j] in m
    ensures LastUses(pages, n, sub)
  {
    forall j | 0 <= j < |sub|
      ensures sub[j].time == LastUse(pages, n, sub[j].page) + 1
    {
      var i :| 0 <= i < |m| && m[i] == sub[j];
    }
  }

  /** A reference to a page no entry holds leaves the last uses as they
      were. */
  lemma LastUsesOther(pages: seq<Page>, n: nat, m: seq<Entry>)
    requires n < |pages| && LastUses(pages, n, m) && pages[n] !in Keys(m)
    ensures LastUses(pages, n + 1, m)
  {
    forall j | 0 <= j < |m| ensures m[j].page != pages[n] {
      assert Keys(m)[j] == m[j].page;
    }
  }

  /** A hit moves the page's time stamp to the reference just served and
      leaves the other entries' last uses as they were. */
  lemma LastUsesBump(pages: seq<Page>, n: nat, m: seq<Entry>, k: nat)
    requires n < |pages| && LastUses(pages, n, m) && NoDups(Keys(m))
    requires k < |m| && m[k].page == pages[n]
    ensures LastUses(pages, n + 1, Bump(m, k, n + 1))
  {
    var r := Bump(m, k, n + 1);
    forall j | 0 <= j < |r| && j != k ensures r[j] == m[j] && m[j].page != pages[n] {
      Distinct(Keys(m), j, k);
    }
  }

  /** A hit keeps the time stamps those of the last uses. */
  lemma LfuHitLastUses(pages: seq<Page>, frameCount: nat, n: nat, st: LfuState, r: LfuState)
    requires frameCount >= 1 && n < |pages| && LfuValid(frameCount, st) && st.time == n
    requires LastUses(pages, n, st.entries) && pages[n] in Keys(st.entries)
    requires r == LfuStep(frameCount, st, pages[n])
    ensures LastUses(pages, n + 1, r.entries)
  {
    LastUsesBump(pages, n, st.entries, FindEntry(st.entries, pages[n]));
  }

  /** A fault keeps the time stamps those of the last uses: the map it
      leaves is the evicted map with the new page stamped now. */
  lemma LfuFaultLastUses(pages: seq<Page>, frameCount: nat, n: nat, st: LfuState, m: seq<Entry>)
    requires frameCount >= 1 && n < |pages| && LfuValid(frameCount, st) && st.time == n
    requires LastUses(pages, n, st.entries) && pages[n] !in Keys(st.entries)
    requires m == Evict(frameCount, st) + [Entry(pages[n], 1, n + 1)]
    ensures LastUses(pages, n + 1, m)
  {
    var kept := Evict(frameCount, st);
    LastUsesSub(pages, n, st.entries, kept);
    assert pages[n] !in Keys(kept);
    LastUsesOther(pages, n, kept);
  }

  /** After any prefix, every entry's time stamp is its page's last use. */
  lemma {:induction false} LfuTimesAreLastUses(pages: seq<Page>, frameCount: nat, n: nat)
    requires frameCount >= 1 && n <= |pages|
    ensures LastUses(pages, n, LfuRun(pages, frameCount, n).entries)
    decreases n
  {
    if n > 0 {
      LfuTimesAreLastUses(pages, frameCount, n - 1);
      LfuLastUsesStep(pages, frameCount, n - 1);
    }
  }

  /** One reference, hit or fault, keeps the time stamps those of the last
      uses. */
  lemma LfuLastUsesStep(pages: seq<Page>, frameCount: nat, n: nat)
    requires frameCount >= 1 && n < |pages| && LastUses(pages, n, LfuRun(pages, frameCount, n).entries)
    ensures LastUses(pages, n + 1, LfuRun(pages, frameCount, n + 1).entries)
  {
    var st, r := LfuRun(pages, frameCount, n), LfuRun(pages, frameCount, n + 1);
    if pages[n] in Keys(st.entries) {
      LfuHitLastUses(pages, frameCount, n, st, r);
    } else {
      assert r.entries == Evict(frameCount, st) + [Entry(pages[n], 1, n + 1)];
      LfuFaultLastUses(pages, frameCount, n, st, r.entries);
    }
  }

  /** How often `p` is requested at the positions `from` up to `n`. */
  function Occurrences(pages: seq<Page>, from: nat, n: nat, p: Page): nat
    requires n <= |pages|
  {
    if n <= from then 0 else Occurrences(pages, from, n - 1, p) + (if pages[n - 1] == p then 1 else 0)
  }

  /** The position of the reference that last admitted `p` before `n`: the
      last request of `p` that found it absent from the map, or -1. */
  function Admission(pages: seq<Page>, frameCount: nat, n: nat, p: Page): (r: int)
    requires frameCount >= 1 && n <= |pages|
    ensures -1 <= r < n
    ensures r >= 0 ==> pages[r] == p && p !in Keys(LfuRun(pages, frameCount, r).entries)
  {
    if n == 0 then -1
    else if pages[n - 1] == p && p !in Keys(LfuRun(pages, frameCount, n - 1).entries) then n - 1
    else Admission(pages, frameCount, n - 1, p)
  }

  /** Every entry was admitted at some reference, and its count is the
      number of requests of its page since then. */
  predicate CountsSinceAdmission(pages: seq<Page>, frameCount: nat, n: nat, m: seq<Entry>)
    requires frameCount >= 1 && n <= |pages|
  {
    forall j :: 0 <= j < |m| ==>
      var a := Admission(pages, frameCount, n, m[j].page);
      a >= 0 && m[j].count == Occurrences(pages, a, n, m[j].page)
  }

  /** One more reference counts one more request of its own page only. */
  lemma OccurrencesStep(pages: seq<Page>, from: nat, n: nat, p: Page)
    requires from <= n < |pages|
    ensures Occurrences(pages, from, n + 1, p) == Occurrences(pages, from, n, p) + (if pages[n] == p then 1 else 0)
  {
  }

  /** One more reference moves only its own page's admission, and only when
      it finds the page absent. */
  lemma AdmissionStep(pages: seq<Page>, frameCount: nat, n: nat, p: Page)
    requires frameCount >= 1 && n < |pages|
    ensures p == pages[n] && p !in Keys(LfuRun(pages, frameCount, n).entries) ==> Admission(pages, frameCount, n + 1, p) == n
    ensures p != pages[n] || p in Keys(LfuRun(pages, frameCount, n).entries) ==>
              Admission(pages, frameCount, n + 1, p) == Admission(pages, frameCount, n, p)
  {
  }

  /** An entry that keeps its count keeps it equal to its requests since
      admission, when the reference served is to another page. */
  lemma CountOther(pages: seq<Page>, frameCount: nat, n: nat, e: Entry)
    requires frameCount >= 1 && n < |pages| && e.page != pages[n]
    requires var a := Admission(pages, frameCount, n, e.page);
             a >= 0 && e.count == Occurrences(pages, a, n, e.page)
    ensures var a := Admission(pages, frameCount, n + 1, e.page);
            a >= 0 && e.count == Occurrences(pages, a, n + 1, e.page)
  {
    AdmissionStep(pages, frameCount, n, e.page);
    OccurrencesStep(pages, Admission(pages, frameCount, n, e.page), n, e.page);
  }

  /** A hit adds one to the count of the page requested and leaves the
      others' counts as they were. */
  lemma LfuHitCounts(pages: seq<Page>, frameCount: nat, n: nat, st: LfuState, r: LfuState)
    requires frameCount >= 1 && n < |pages| && st == LfuRun(pages, frameCount, n) && LfuValid(frameCount, st)
    requires CountsSinceAdmission(pages, frameCount, n, st.entries) && pages[n] in Keys(st.entries)
    requires r == LfuStep(frameCount, st, pages[n])
    ensures CountsSinceAdmission(pages, frameCount, n + 1, r.entries)
  {
    var m := st.entries;
    var k := FindEntry(m, pages[n]);
    forall j | 0 <= j < |r.entries|
      ensures var a := Admission(pages, frameCount, n + 1, r.entries[j].page);
              a >= 0 && r.entries[j].count == Occurrences(pages, a, n + 1, r.entries[j].page)
    {
      if j != k {
        assert Keys(m)[j] == m[j].page;
        Distinct(Keys(m), j, k);
        CountOther(pages, frameCount, n, m[j]);
      } else {
        AdmissionStep(pages, frameCount, n, pages[n]);
        OccurrencesStep(pages, Admission(pages, frameCount, n, pages[n]), n, pages[n]);
      }
    }
  }

  /** A fault admits the page with a count of one, and the entries that
      stay keep their counts. */
  lemma LfuFaultCounts(pages: seq<Page>, frameCount: nat, n: nat, st: LfuState, r: LfuState)
    requires frameCount >= 1 && n < |pages| && st == LfuRun(pages, frameCount, n) && LfuValid(frameCount, st)
    requires CountsSinceAdmission(pages, frameCount, n, st.entries) && pages[n] !in Keys(st.entries)
    requires r == LfuStep(frameCount, st, pages[n])
    ensures CountsSinceAdmission(pages, frameCount, n + 1, r.entries)
  {
    var m := st.entries;
    var kept := Evict(frameCount, st);
    forall j | 0 <= j < |r.entries|
      ensures var a := Admission(pages, frameCount, n + 1, r.entries[j].page);
              a >= 0 && r.entries[j].count == Occurrences(pages, a, n + 1, r.entries[j].page)
    {
      if j < |kept| {
        assert r.entries[j] == r.entries[..|r.entries| - 1][j] == kept[j];
        var i :| 0 <= i < |m| && m[i] == kept[j];
        assert Keys(m)[i] == m[i].page;
        CountOther(pages, frameCount, n, m[i]);
      } else {
        AdmissionStep(pages, frameCount, n, pages[n]);
      }
    }
  }

  /** After any prefix, every entry's count is the number of requests of its
      page since the reference that last admitted it: a hit adds one, and an
      evicted page that comes back starts again from one. */
  lemma {:induction false} LfuCountsSinceAdmission(pages: seq<Page>, frameCount: nat, n: nat)
    requires frameCount >= 1 && n <= |pages|
    ensures CountsSinceAdmission(pages, frameCount, n, LfuRun(pages, frameCount, n).entries)
    decreases n
  {
    if n > 0 {
      LfuCountsSinceAdmission(pages, frameCount, n - 1);
      var st := LfuRun(pages, frameCount, n - 1);
      if pages[n - 1] in Keys(st.entries) {
        LfuHitCounts(pages, frameCount, n - 1, st, LfuRun(pages, frameCount, n));
      } else {
        LfuFaultCounts(pages, frameCount, n - 1, st, LfuRun(pages, frameCount, n));
      }
    }
  }

  /** So among the pages with the smallest count, LFU evicts the one used
      least recently: on a full map whose time stamps are last uses (as every
      map of a run is), the evicted entry has the smallest count, and every
      other entry with that count was referenced more recently. */
  lemma EvictLeastRecent(pages: seq<Page>, frameCount: nat, n: nat, st: LfuState) returns (v: nat)
    requires frameCount >= 1 && n <= |pages| && LfuValid(frameCount, st)
    requires LastUses(pages, n, st.entries) && |st.entries| >= frameCount
    ensures v < |st.entries| && Evict(frameCount, st) == DeleteAt(st.entries, v)
    ensures forall j :: 0 <= j < |st.entries| ==> st.entries[v].count <= st.entries[j].count
    ensures forall j :: 0 <= j < |st.entries| && j != v && st.entries[j].count == st.entries[v].count ==>
              LastUse(pages, n, st.entries[v].page) < LastUse(pages, n, st.entries[j].page)
  {
    var kept := Evict(frameCount, st);
    v :| LeastUsed(st.entries, v) && kept == DeleteAt(st.entries, v);
    var m := st.entries;
    forall j | 0 <= j < |m| && j != v && m[j].count == m[v].count
      ensures LastUse(pages, n, m[v].page) < LastUse(pages, n, m[j].page)
    {
      LeastUsedTie(pages, n, m, v, j);
    }
  }

  /** Among entries of the least count, the least used one has the oldest
      last use. */
  lemma LeastUsedTie(pages: seq<Page>, n: nat, m: seq<Entry>, v: nat, j: nat)
    requires n <= |pages| && LeastUsed(m, v) && LastUses(pages, n, m)
    requires j < |m| && j != v && m[j].count == m[v].count
    ensures LastUse(pages, n, m[v].page) < LastUse(pages, n, m[j].page)
  {
    assert m[v].time < m[j].time;
  }
}
