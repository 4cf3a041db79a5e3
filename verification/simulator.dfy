/** The batch simulator: one replacement policy driven over a whole reference
    sequence, returning how many references faulted and how many hit. One
    state value carries every policy's bookkeeping (clock hand and reference
    bits, NFU counters); each policy reads only its own part. */
module Simulator {
  import opened Pages

  /** Everything the simulator's loop keeps between iterations. */
  datatype State = State(
    memory: seq<Page>,      // resident pages, in slot order
    faults: nat,
    hits: nat,
    pointer: nat,           // clock hand
    flags: seq<bool>,       // clock reference bits, one per frame
    freq: map<Page, nat>)   // NFU counters; an evicted page keeps its counter

  datatype Outcome = Outcome(pageFaults: nat, pageHits: nat)

  /** What holds between iterations for every policy. */
  predicate Valid(st: State, frameCount: nat) {
    && frameCount >= 1
    && |st.memory| <= frameCount
    && NoDups(st.memory)
    && |st.flags| == frameCount
    && st.pointer < frameCount
  }

  /** Empty memory, zero counters, the hand at slot 0 and every bit clear. */
  function Init(frameCount: nat): (st: State)
    requires frameCount >= 1
    ensures Valid(st, frameCount)
  {
    State([], 0, 0, 0, seq(frameCount, _ => false), map[])
  }

  /** The loop starts with no page resident, nothing counted, every reference
      bit clear and no NFU counter. */
  lemma InitIsEmpty(frameCount: nat)
    requires frameCount >= 1
    ensures var st := Init(frameCount);
            && st.memory == [] && st.faults == 0 && st.hits == 0
            && (forall k :: 0 <= k < frameCount ==> !st.flags[k]) && st.freq == map[]
  {
  }

  /** `frequencyCounters.get(p) || 0`. */
  function Counter(freq: map<Page, nat>, p: Page): nat {
    if p in freq then freq[p] else 0
  }

  // ---------------------------------------------------------------- clock

  /** Number of set reference bits. */
  function CountSet(flags: seq<bool>): (c: nat)
    ensures c <= |flags|
  {
    if |flags| == 0 then 0 else (if flags[0] then 1 else 0) + CountSet(flags[1..])
  }

  /** Clearing a set bit lowers the count of set bits by one. */
  lemma {:induction false} ClearOne(flags: seq<bool>, k: nat)
    requires k < |flags| && flags[k]
    ensures CountSet(flags[k := false]) == CountSet(flags) - 1
    decreases |flags|
  {
    if k == 0 {
      assert flags[k := false][1..] == flags[1..];
    } else {
      ClearOne(flags[1..], k - 1);
      assert flags[k := false][1..] == flags[1..][k - 1 := false];
    }
  }

  /** The slot after `h` on a dial of `n` slots. */
  function Next(h: nat, n: nat): nat {
    if h + 1 < n then h + 1 else 0
  }

  /** `(h + 1) % n` is the slot after `h`. */
  lemma NextIsMod(h: nat, n: nat)
    requires h < n
    ensures (h + 1) % n == Next(h, n)
  {
    if h + 1 == n {
      assert (h + 1) % n == n % n == 0;
    }
  }

  /** The slot reached from `h` after `t` moves of the hand. */
  function Advance(h: nat, t: nat, n: nat): (q: nat)
    ensures h < n ==> q < n
    decreases t
  {
    if t == 0 then h else Advance(Next(h, n), t - 1, n)
  }

  /** How many moves take the hand from `h` to `q`. */
  function Dist(h: nat, q: nat, n: nat): int {
    if q >= h then q - h else q + n - h
  }

  /** The hand's sweep: its final position, the bits after the sweep, and how
      many set bits it passed over (and cleared) on the way. */
  datatype Sweep = Sweep(flags: seq<bool>, pointer: nat, passed: nat)

  /** While the bit under the hand is set, clear it and advance the hand
      modulo the number of frames. Every pass clears a set bit, so the hand
      stops after passing at most one full turn of frames. */
  function ClockSweep(flags: seq<bool>, hand: nat): (r: Sweep)
    requires hand < |flags|
    ensures |r.flags| == |flags| && r.pointer < |flags|
    decreases CountSet(flags)
  {
    if !flags[hand] then Sweep(flags, hand, 0)
    else
      ClearOne(flags, hand);
      NextIsMod(hand, |flags|);
      var r := ClockSweep(flags[hand := false], (hand + 1) % |flags|);
      Sweep(r.flags, r.pointer, r.passed + 1)
  }

  /** `r` is a finished sweep from `hand`: it stops on a clear bit, after
      passing at most as many frames as had their bit set; it clears exactly
      the bits it passes over, every one of which was set, and leaves every
      other bit as it was. */
  predicate Swept(flags: seq<bool>, hand: nat, r: Sweep)
    requires hand < |flags|
  {
    && |r.flags| == |flags| && r.pointer < |flags|
    && !r.flags[r.pointer]
    && r.passed <= CountSet(flags)
    && r.pointer == Advance(hand, r.passed, |flags|)
    && (forall t :: 0 <= t < r.passed ==> flags[Advance(hand, t, |flags|)])
    && (forall q :: 0 <= q < |flags| ==> r.flags[q] == (flags[q] && Dist(hand, q, |flags|) >= r.passed))
  }

  /** The hand's sweep is a finished sweep. */
  lemma {:induction false} SweepClearsPassedBits(flags: seq<bool>, hand: nat)
    requires hand < |flags|
    ensures Swept(flags, hand, ClockSweep(flags, hand))
    decreases CountSet(flags)
  {
    if flags[hand] {
      var n := |flags|;
      ClearOne(flags, hand);
      NextIsMod(hand, n);
      var f1, h1 := flags[hand := false], Next(hand, n);
      SweepClearsPassedBits(f1, h1);
      var r1 := ClockSweep(f1, h1);
      assert ClockSweep(flags, hand) == Sweep(r1.flags, r1.pointer, r1.passed + 1);
      SweepUnwind(flags, hand, r1);
    }
  }

  /** Passing a set bit under the hand and then finishing a sweep from the
      next slot finishes a sweep from the hand. */
  lemma SweepUnwind(flags: seq<bool>, hand: nat, r1: Sweep)
    requires hand < |flags| && flags[hand]
    requires Swept(flags[hand := false], Next(hand, |flags|), r1)
    ensures Swept(flags, hand, Sweep(r1.flags, r1.pointer, r1.passed + 1))
  {
    var n := |flags|;
    var f1, h1 := flags[hand := false], Next(hand, n);
    var r := Sweep(r1.flags, r1.pointer, r1.passed + 1);
    ClearOne(flags, hand);
    forall t | 0 <= t < r.passed
      ensures flags[Advance(hand, t, n)]
    {
      if t > 0 {
        assert Advance(hand, t, n) == Advance(h1, t - 1, n);
        assert f1[Advance(h1, t - 1, n)];
      }
    }
    forall q | 0 <= q < n
      ensures r.flags[q] == (flags[q] && Dist(hand, q, n) >= r.passed)
    {
      assert r1.flags[q] == (f1[q] && Dist(h1, q, n) >= r1.passed);
      if q != hand {
        assert Dist(h1, q, n) + 1 == Dist(hand, q, n);
      }
    }
  }

  // ---------------------------------------------------------------- optimal

  /** Slot `v` holds the lowest-placed page that is never requested again at or
      after position `from`. */
  predicate FirstUnused(memory: seq<Page>, pages: seq<Page>, from: nat, v: nat) {
    && v < |memory|
    && IndexFrom(pages, memory[v], from) == -1
    && forall k :: 0 <= k < v ==> IndexFrom(pages, memory[k], from) != -1
  }

  /** Every resident page is requested again, and slot `v` is the first one
      whose next request lies farthest ahead. */
  predicate FirstFarthest(memory: seq<Page>, pages: seq<Page>, from: nat, v: nat) {
    && v < |memory|
    && (forall k :: 0 <= k < |memory| ==> IndexFrom(pages, memory[k], from) != -1)
    && (forall k :: 0 <= k < |memory| ==> IndexFrom(pages, memory[k], from) <= IndexFrom(pages, memory[v], from))
    && (forall k :: 0 <= k < v ==> IndexFrom(pages, memory[k], from) < IndexFrom(pages, memory[v], from))
  }

  /** The optimal policy's loop over the frames: stop at the first page never
      requested again, otherwise remember the first page whose next request is
      strictly later than every earlier one. */
  function OptimalScan(memory: seq<Page>, pages: seq<Page>, from: nat, j: nat, furthest: int, replace: nat): (v: nat)
    requires j <= |memory| && replace < |memory|
    ensures v < |memory|
    decreases |memory| - j
  {
    if j == |memory| then replace
    else
      var next := IndexFrom(pages, memory[j], from);
      if next == -1 then j
      else if next > furthest then OptimalScan(memory, pages, from, j + 1, next, j)
      else OptimalScan(memory, pages, from, j + 1, furthest, replace)
  }

  /** The next-request positions of the resident pages, slot by slot. */
  function NextUses(memory: seq<Page>, pages: seq<Page>, from: nat): (nexts: seq<int>)
    ensures |nexts| == |memory|
    ensures forall k :: 0 <= k < |memory| ==> nexts[k] >= -1
    ensures forall k :: 0 <= k < |memory| ==> nexts[k] == IndexFrom(pages, memory[k], from)
  {
    seq(|memory|, k requires 0 <= k < |memory| => IndexFrom(pages, memory[k], from))
  }

  /** The same loop run over precomputed next-request positions. */
  function ScanNexts(nexts: seq<int>, j: nat, furthest: int, replace: nat): (v: nat)
    requires j <= |nexts| && replace < |nexts|
    decreases |nexts| - j
  {
    if j == |nexts| then replace
    else if nexts[j] == -1 then j
    else if nexts[j] > furthest then ScanNexts(nexts, j + 1, nexts[j], j)
    else ScanNexts(nexts, j + 1, furthest, replace)
  }

  /** Looking each page up as the loop reaches it or looking them all up
      first picks the same slot. */
  lemma {:induction false} OptimalScanIsScanNexts(memory: seq<Page>, pages: seq<Page>, from: nat, j: nat, furthest: int, replace: nat)
    requires j <= |memory| && replace < |memory|
    ensures OptimalScan(memory, pages, from, j, furthest, replace) == ScanNexts(NextUses(memory, pages, from), j, furthest, replace)
    decreases |memory| - j
  {
    if j < |memory| {
      var next := IndexFrom(pages, memory[j], from);
      if next != -1 {
        if next > furthest {
          OptimalScanIsScanNexts(memory, pages, from, j + 1, next, j);
        } else {
          OptimalScanIsScanNexts(memory, pages, from, j + 1, furthest, replace);
        }
      }
    }
  }

  /** Over next-request positions, the loop stops at the first slot never
      requested again, or else ends on the first farthest-requested one. */
  lemma {:induction false} ScanNextsChooses(nexts: seq<int>, j: nat, furthest: int, replace: nat)
    requires 0 < |nexts| && j <= |nexts|
    requires forall k :: 0 <= k < |nexts| ==> nexts[k] >= -1
    requires forall k :: 0 <= k < j ==> nexts[k] != -1
    requires j == 0 ==> furthest == -1 && replace == 0
    requires j > 0 ==> replace < j && furthest == nexts[replace]
    requires forall k :: 0 <= k < j ==> nexts[k] <= furthest
    requires forall k :: 0 <= k < replace ==> nexts[k] < furthest
    ensures var v := ScanNexts(nexts, j, furthest, replace);
            && v < |nexts|
            && (nexts[v] == -1 ==> forall k :: 0 <= k < v ==> nexts[k] != -1)
            && (nexts[v] != -1 ==>
                  && (forall k :: 0 <= k < |nexts| ==> nexts[k] != -1 && nexts[k] <= nexts[v])
                  && (forall k :: 0 <= k < v ==> nexts[k] < nexts[v]))
    decreases |nexts| - j
  {
    if j < |nexts| && nexts[j] != -1 {
      if nexts[j] > furthest {
        ScanNextsChooses(nexts, j + 1, nexts[j], j);
      } else {
        ScanNextsChooses(nexts, j + 1, furthest, replace);
      }
    }
  }

  /** The slot the optimal policy overwrites when the reference at position
      `from - 1` faults on a full memory. */
  function OptimalVictim(memory: seq<Page>, pages: seq<Page>, from: nat): (v: nat)
    requires 0 < |memory|
    ensures v < |memory|
  {
    OptimalScan(memory, pages, from, 0, -1, 0)
  }

  /** The optimal victim is the first page never requested again, or, when
      every page is, the first one whose next request lies farthest ahead. */
  lemma OptimalVictimChoice(memory: seq<Page>, pages: seq<Page>, from: nat)
    requires 0 < |memory|
    ensures var v := OptimalVictim(memory, pages, from);
            FirstUnused(memory, pages, from, v) || FirstFarthest(memory, pages, from, v)
  {
    var nexts := NextUses(memory, pages, from);
    OptimalScanIsScanNexts(memory, pages, from, 0, -1, 0);
    ScanNextsChooses(nexts, 0, -1, 0);
  }

  // ---------------------------------------------------------------- nfu

  /** Slot `v` holds the first page with the smallest counter. */
  predicate LeastCounted(memory: seq<Page>, freq: map<Page, nat>, v: nat) {
    && v < |memory|
    && (forall k :: 0 <= k < |memory| ==> Counter(freq, memory[v]) <= Counter(freq, memory[k]))
    && (forall k :: 0 <= k < v ==> Counter(freq, memory[v]) < Counter(freq, memory[k]))
  }

  /** The NFU loop over the frames, seeded with an infinite minimum and
      replacing it only on a strictly smaller counter. */
  function MinScan(memory: seq<Page>, freq: map<Page, nat>, j: nat, minFreq: ExtNat, replace: nat): (v: nat)
    requires j <= |memory| && replace < |memory|
    ensures v < |memory|
    decreases |memory| - j
  {
    if j == |memory| then replace
    else
      var c := Counter(freq, memory[j]);
      if Below(c, minFreq) then MinScan(memory, freq, j + 1, Fin(c), j)
      else MinScan(memory, freq, j + 1, minFreq, replace)
  }

  /** The scan's loop invariant carries it to the first page with the
      smallest counter. */
  lemma {:induction false} MinScanChooses(memory: seq<Page>, freq: map<Page, nat>, j: nat, minFreq: ExtNat, replace: nat)
    requires 0 < |memory| && j <= |memory|
    requires j == 0 ==> minFreq == Infinity && replace == 0
    requires j > 0 ==> replace < j && minFreq == Fin(Counter(freq, memory[replace]))
    requires forall k :: 0 <= k < j ==> Counter(freq, memory[replace]) <= Counter(freq, memory[k])
    requires forall k :: 0 <= k < replace ==> Counter(freq, memory[replace]) < Counter(freq, memory[k])
    ensures LeastCounted(memory, freq, MinScan(memory, freq, j, minFreq, replace))
    decreases |memory| - j
  {
    if j < |memory| {
      var c := Counter(freq, memory[j]);
      if Below(c, minFreq) {
        MinScanChooses(memory, freq, j + 1, Fin(c), j);
      } else {
        MinScanChooses(memory, freq, j + 1, minFreq, replace);
      }
    }
  }

  // ---------------------------------------------------------------- one iteration

  /** One iteration of the simulator's loop: reference `pages[i]` under
      policy `alg`; `u` is the value `Math.random()` would return if the
      random policy has to pick a victim. */
  function Step(alg: Policy, pages: seq<Page>, frameCount: nat, i: nat, u: real, st: State): (r: State)
    requires i < |pages| && 0.0 <= u < 1.0 && Valid(st, frameCount)
    ensures Valid(r, frameCount)
    ensures pages[i] in st.memory ==> r.hits == st.hits + 1 && r.faults == st.faults
    ensures pages[i] !in st.memory ==> r.faults == st.faults + 1 && r.hits == st.hits
    ensures pages[i] in r.memory
    ensures forall p :: p in r.memory ==> p in st.memory || p == pages[i]
  {
    var page := pages[i];
    var freq := if alg == Nfu then st.freq[page := Counter(st.freq, page) + 1] else st.freq;
    if page in st.memory then
      NoDupsSnoc(Without(st.memory, page), page);
      var memory := if alg == Lru then Without(st.memory, page) + [page] else st.memory;
      var flags := if alg == Clock then st.flags[IndexOf(st.memory, page) := true] else st.flags;
      st.(memory := memory, hits := st.hits + 1, flags := flags, freq := freq)
    else if |st.memory| < frameCount then
      NoDupsSnoc(st.memory, page);
      var flags := if alg == Clock then st.flags[|st.memory| := true] else st.flags;
      st.(memory := st.memory + [page], faults := st.faults + 1, flags := flags, freq := freq)
    else
      var full := st.(faults := st.faults + 1, freq := freq);
      match alg
      case Fifo =>
        ShiftPush(st.memory, page);
        full.(memory := st.memory[1..] + [page])
      case Lru =>
        ShiftPush(st.memory, page);
        full.(memory := st.memory[1..] + [page])
      case Optimal =>
        var v := OptimalVictim(st.memory, pages, i + 1);
        ReplaceSlot(st.memory, v, page);
        full.(memory := st.memory[v := page])
      case Clock =>
        var sw := ClockSweep(st.flags, st.pointer);
        ReplaceSlot(st.memory, sw.pointer, page);
        full.(memory := st.memory[sw.pointer := page],
              flags := sw.flags[sw.pointer := true],
              pointer := (sw.pointer + 1) % frameCount)
      case Random =>
        var v := RandomIndex(u, frameCount);
        ReplaceSlot(st.memory, v, page);
        full.(memory := st.memory[v := page])
      case Nfu =>
        var v := MinScan(st.memory, freq, 0, Infinity, 0);
        ReplaceSlot(st.memory, v, page);
        full.(memory := st.memory[v := page])
  }

  /** The state after the first `n` iterations of the loop. */
  function Run(alg: Policy, pages: seq<Page>, frameCount: nat, draws: seq<real>, n: nat): (st: State)
    requires frameCount >= 1 && n <= |pages| && |draws| == |pages| && ValidDraws(draws)
    ensures Valid(st, frameCount)
    ensures st.faults + st.hits == n
    ensures forall p :: p in st.memory ==> p in pages[..n]
    decreases n
  {
    if n == 0 then Init(frameCount)
    else
      var prev := Run(alg, pages, frameCount, draws, n - 1);
      assert pages[..n] == pages[..n - 1] + [pages[n - 1]];
      Step(alg, pages, frameCount, n - 1, draws[n - 1], prev)
  }

  /** The last iteration of a run of length `n`. */
  lemma RunUnfolds(alg: Policy, pages: seq<Page>, frameCount: nat, draws: seq<real>, n: nat)
    requires frameCount >= 1 && 0 < n <= |pages| && |draws| == |pages| && ValidDraws(draws)
    ensures Run(alg, pages, frameCount, draws, n)
         == Step(alg, pages, frameCount, n - 1, draws[n - 1], Run(alg, pages, frameCount, draws, n - 1))
  {
  }

  /** Consecutive states `t[k]` and `t[k + 1]` of a trace are one iteration
      of the loop apart. */
  predicate Linked(alg: Policy, pages: seq<Page>, frameCount: nat, draws: seq<real>, t: seq<State>, k: nat) {
    && k + 1 < |t| && k < |pages| && k < |draws| && 0.0 <= draws[k] < 1.0
    && Valid(t[k], frameCount)
    && t[k + 1] == Step(alg, pages, frameCount, k, draws[k], t[k])
  }

  /** The state after every prefix of the run. */
  function Trace(alg: Policy, pages: seq<Page>, frameCount: nat, draws: seq<real>): (t: seq<State>)
    requires frameCount >= 1 && |draws| == |pages| && ValidDraws(draws)
    ensures |t| == |pages| + 1
    ensures forall n :: 0 <= n <= |pages| ==> t[n] == Run(alg, pages, frameCount, draws, n)
  {
    seq(|pages| + 1, n requires 0 <= n <= |pages| => Run(alg, pages, frameCount, draws, n))
  }

  /** The trace starts from the initial state and each state follows from
      the one before by one iteration. */
  lemma TraceLinked(alg: Policy, pages: seq<Page>, frameCount: nat, draws: seq<real>)
    requires frameCount >= 1 && |draws| == |pages| && ValidDraws(draws)
    ensures var t := Trace(alg, pages, frameCount, draws);
            t[0] == Init(frameCount) && forall k :: 0 <= k < |pages| ==> Linked(alg, pages, frameCount, draws, t, k)
  {
    var t := Trace(alg, pages, frameCount, draws);
    forall k | 0 <= k < |pages|
      ensures Linked(alg, pages, frameCount, draws, t, k)
    {
      assert t[k + 1] == Run(alg, pages, frameCount, draws, k + 1);
    }
  }

  /** `simulateAlgorithm(alg, pages, frameCount)`: every reference is counted
      exactly once, as a fault or as a hit. */
  function SimulateAlgorithm(alg: Policy, pages: seq<Page>, frameCount: nat, draws: seq<real>): (r: Outcome)
    requires frameCount >= 1 && |draws| == |pages| && ValidDraws(draws)
    ensures r.pageFaults + r.pageHits == |pages|
    ensures |pages| == 0 ==> r == Outcome(0, 0)
  {
    var st := Run(alg, pages, frameCount, draws, |pages|);
    Outcome(st.faults, st.hits)
  }
}
