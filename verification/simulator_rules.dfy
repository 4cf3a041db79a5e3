/** What each policy of the batch simulator does to its frames, stated per
    iteration, and what the frames mean after a whole prefix of the reference
    sequence has been simulated. */
module SimulatorRules {
  import opened Pages
  import opened Simulator

  // ---------------------------------------------------------------- fifo / lru

  /** FIFO and LRU, on a fault with every frame in use, evict the page in
      slot 0 and append the new page. */
  lemma EvictHeadAppend(alg: Policy, pages: seq<Page>, frameCount: nat, i: nat, u: real, st: State)
    requires alg == Fifo || alg == Lru
    requires i < |pages| && 0.0 <= u < 1.0 && Valid(st, frameCount)
    requires pages[i] !in st.memory && |st.memory| == frameCount
    ensures Step(alg, pages, frameCount, i, u, st).memory == st.memory[1..] + [pages[i]]
    ensures st.memory[0] !in Step(alg, pages, frameCount, i, u, st).memory
  {
    NoDupsHead(st.memory);
  }

  /** An LRU hit moves the page from its slot to the tail and keeps the
      relative order of every other page. */
  lemma LruHitMovesToTail(pages: seq<Page>, frameCount: nat, i: nat, u: real, st: State, k: nat)
    requires i < |pages| && 0.0 <= u < 1.0 && Valid(st, frameCount)
    requires k < |st.memory| && st.memory[k] == pages[i]
    ensures Step(Lru, pages, frameCount, i, u, st).memory == st.memory[..k] + st.memory[k + 1..] + [pages[i]]
  {
    WithoutResident(st.memory, k);
  }

  /** The distinct pages of `s`, ordered by their last reference (the most
      recently referenced page last). */
  function Recency(s: seq<Page>): (r: seq<Page>)
    ensures NoDups(r) && Elems(r) == Elems(s)
  {
    if |s| == 0 then []
    else
      var p := s[|s| - 1];
      var r := Without(Recency(s[..|s| - 1]), p) + [p];
      NoDupsSnoc(Without(Recency(s[..|s| - 1]), p), p);
      assert s == s[..|s| - 1] + [p];
      assert Elems(s) == Elems(s[..|s| - 1]) + {p};
      r
  }

  /** The last `k` elements of `s` (all of them when it is shorter). */
  function Last(s: seq<Page>, k: nat): (r: seq<Page>)
    ensures |r| == if |s| <= k then |s| else k
  {
    if |s| <= k then s else s[|s| - k..]
  }

  /** LRU keeps exactly the `frameCount` most recently used distinct pages,
      least recently used first: after any prefix its frames are the tail of
      the prefix's recency order. */
  lemma {:induction false} LruKeepsMostRecent(pages: seq<Page>, frameCount: nat, draws: seq<real>, n: nat)
    requires frameCount >= 1 && n <= |pages| && |draws| == |pages| && ValidDraws(draws)
    ensures Run(Lru, pages, frameCount, draws, n).memory == Last(Recency(pages[..n]), frameCount)
    decreases n
  {
    if n > 0 {
      LruKeepsMostRecent(pages, frameCount, draws, n - 1);
      var st := Run(Lru, pages, frameCount, draws, n - 1);
      var p := pages[n - 1];
      var r := Recency(pages[..n - 1]);
      assert pages[..n][..n - 1] == pages[..n - 1];
      assert Recency(pages[..n]) == Without(r, p) + [p];
      if p in st.memory {
        var k :| 0 <= k < |st.memory| && st.memory[k] == p;
        LruHitMovesToTail(pages, frameCount, n - 1, draws[n - 1], st, k);
        RecencyTailOnHit(r, frameCount, k);
      } else if |st.memory| < frameCount {
        WithoutAbsent(r, p);
      } else {
        EvictHeadAppend(Lru, pages, frameCount, n - 1, draws[n - 1], st);
        RecencyTailOnFault(r, frameCount, p);
      }
    }
  }

  /** A reference to a page inside the tail moves it to the end of the tail. */
  lemma RecencyTailOnHit(r: seq<Page>, fc: nat, k: nat)
    requires NoDups(r) && k < |Last(r, fc)|
    ensures var m := Last(r, fc);
      Last(Without(r, m[k]) + [m[k]], fc) == m[..k] + m[k + 1..] + [m[k]]
  {
    var s := LastAfterMove(r, fc, k);
    MoveToEnd(r, s, k, Last(r, fc));
  }

  /** The tail starts at `s`, and moving one of its pages to the end keeps
      the length, so the new tail starts there too. */
  lemma LastAfterMove(r: seq<Page>, fc: nat, k: nat) returns (s: nat)
    requires NoDups(r) && k < |Last(r, fc)|
    ensures var m := Last(r, fc);
      && s + |m| == |r| && m == r[s..] && m[k] == r[s + k]
      && Last(Without(r, m[k]) + [m[k]], fc) == (Without(r, m[k]) + [m[k]])[s..]
  {
    var m := Last(r, fc);
    s := |r| - |m|;
    var w := Without(r, m[k]) + [m[k]];
    if |r| <= fc {
      assert m == r == r[0..];
      assert |w| == |r| && w[0..] == w;
    } else {
      assert m == r[s..];
      assert m[k] == r[s + k];
      assert |w| == |r|;
    }
  }

  /** Moving the page `k` places after position `s` to the end, seen from
      position `s` on. */
  lemma MoveToEnd(r: seq<Page>, s: nat, k: nat, m: seq<Page>)
    requires NoDups(r) && s + k < |r| && m == r[s..]
    ensures (Without(r, m[k]) + [m[k]])[s..] == m[..k] + m[k + 1..] + [m[k]]
  {
    DropSlot(r, s, k, m);
    assert Without(r, m[k]) == r[..s + k] + r[s + k + 1..] by {
      WithoutResident(r, s + k);
    }
  }

  /** Slice arithmetic behind `MoveToEnd`. */
  lemma DropSlot(r: seq<Page>, s: nat, k: nat, m: seq<Page>)
    requires s + k < |r| && m == r[s..]
    ensures m[k] == r[s + k]
    ensures (r[..s + k] + r[s + k + 1..] + [m[k]])[s..] == m[..k] + m[k + 1..] + [m[k]]
  {
    var p := m[k];
    assert r[..s + k] + r[s + k + 1..] + [p] == r[..s + k] + (r[s + k + 1..] + [p]);
    SliceOfConcat(r[..s + k], r[s + k + 1..] + [p], s);
    assert r[..s + k][s..] == m[..k];
    assert r[s + k + 1..] == m[k + 1..];
  }

  /** Dropping a prefix no longer than the first part of a concatenation. */
  lemma SliceOfConcat(a: seq<Page>, b: seq<Page>, s: nat)
    requires s <= |a|
    ensures (a + b)[s..] == a[s..] + b
  {
  }

  /** Dropping a prefix that reaches into the second part of a concatenation. */
  lemma SliceAfterFirst(a: seq<Page>, b: seq<Page>, s: nat)
    requires |a| <= s <= |a| + |b|
    ensures (a + b)[s..] == b[s - |a|..]
  {
  }

  /** A reference to a page outside a full tail drops the tail's first page
      and appends the new one. */
  lemma RecencyTailOnFault(r: seq<Page>, fc: nat, p: Page)
    requires NoDups(r) && 1 <= fc <= |r| && p !in Last(r, fc)
    ensures Last(Without(r, p) + [p], fc) == Last(r, fc)[1..] + [p]
  {
    var s := |r| - fc;
    assert Last(r, fc) == r[s..];
    assert Last(r, fc)[1..] == r[s + 1..];
    if p in r {
      var k := IndexOf(r, p);
      assert k < s;
      SeenBeforeTail(r, s, k);
      assert Last(Without(r, p) + [p], fc) == (Without(r, p) + [p])[s..];
    } else {
      NewcomerTail(r, s, p);
      assert Last(r + [p], fc) == (r + [p])[s + 1..];
    }
  }

  /** A page never seen before goes to the end, after everything from
      position `s + 1` on. */
  lemma NewcomerTail(r: seq<Page>, s: nat, p: Page)
    requires p !in r && s < |r|
    ensures Without(r, p) + [p] == r + [p]
    ensures (r + [p])[s + 1..] == r[s + 1..] + [p]
  {
    WithoutAbsent(r, p);
  }

  /** Moving a page from before position `s` to the end shifts everything
      from `s` on one place to the left. */
  lemma SeenBeforeTail(r: seq<Page>, s: nat, k: nat)
    requires NoDups(r) && k < s < |r|
    ensures (Without(r, r[k]) + [r[k]])[s..] == r[s + 1..] + [r[k]]
  {
    WithoutResident(r, k);
    ShiftSlot(r, s, k, r[k]);
  }

  /** Slice arithmetic behind `SeenBeforeTail`. */
  lemma ShiftSlot(r: seq<Page>, s: nat, k: nat, p: Page)
    requires k < s < |r|
    ensures (r[..k] + r[k + 1..] + [p])[s..] == r[s + 1..] + [p]
  {
    assert r[..k] + r[k + 1..] + [p] == r[..k] + (r[k + 1..] + [p]);
    SliceAfterFirst(r[..k], r[k + 1..] + [p], s);
    assert (r[k + 1..] + [p])[s - k..] == r[k + 1..][s - k..] + [p];
    assert r[k + 1..][s - k..] == r[s + 1..];
  }

  // ---------------------------------------------------------------- optimal

  /** The optimal policy, on a fault with every frame in use, writes the new
      page into the slot of the first page never requested again, or, when
      every resident page is requested again, into the slot of the first page
      whose next request lies farthest ahead. */
  lemma OptimalOverwritesVictim(pages: seq<Page>, frameCount: nat, i: nat, u: real, st: State) returns (v: nat)
    requires i < |pages| && 0.0 <= u < 1.0 && Valid(st, frameCount)
    requires pages[i] !in st.memory && |st.memory| == frameCount
    ensures FirstUnused(st.memory, pages, i + 1, v) || FirstFarthest(st.memory, pages, i + 1, v)
    ensures Step(Optimal, pages, frameCount, i, u, st).memory == st.memory[v := pages[i]]
  {
    v := OptimalVictim(st.memory, pages, i + 1);
    OptimalVictimChoice(st.memory, pages, i + 1);
  }

  // ---------------------------------------------------------------- clock

  /** A clock hit sets the bit of the page's slot and moves neither the hand
      nor any page. */
  lemma ClockHitSetsBit(pages: seq<Page>, frameCount: nat, i: nat, u: real, st: State, k: nat)
    requires i < |pages| && 0.0 <= u < 1.0 && Valid(st, frameCount)
    requires k < |st.memory| && st.memory[k] == pages[i]
    ensures var r := Step(Clock, pages, frameCount, i, u, st);
      r.memory == st.memory && r.pointer == st.pointer && r.flags == st.flags[k := true]
  {
    SameSlot(st.memory, IndexOf(st.memory, pages[i]), k);
  }

  /** A clock fault with a free frame fills the next free slot with its bit
      set and leaves the hand where it is. */
  lemma ClockAdmitSetsBit(pages: seq<Page>, frameCount: nat, i: nat, u: real, st: State)
    requires i < |pages| && 0.0 <= u < 1.0 && Valid(st, frameCount)
    requires pages[i] !in st.memory && |st.memory| < frameCount
    ensures var r := Step(Clock, pages, frameCount, i, u, st);
      && r.memory == st.memory + [pages[i]]
      && r.flags == st.flags[|st.memory| := true]
      && r.pointer == st.pointer
  {
  }

  /** A clock fault with every frame in use: starting at the hand, the sweep
      passes over `passed <= frameCount` slots, each of which had its bit set
      and now has it clear; it stops at `v`, whose bit was clear unless the
      hand went all the way round; the new page goes into slot `v` with its bit
      set, every bit the sweep did not reach is unchanged, and the hand moves
      one past `v`. */
  lemma ClockReplace(pages: seq<Page>, frameCount: nat, i: nat, u: real, st: State) returns (v: nat, passed: nat)
    requires i < |pages| && 0.0 <= u < 1.0 && Valid(st, frameCount)
    requires pages[i] !in st.memory && |st.memory| == frameCount
    ensures passed <= frameCount && v < frameCount
    ensures v == Advance(st.pointer, passed, frameCount)
    ensures forall t :: 0 <= t < passed ==> st.flags[Advance(st.pointer, t, frameCount)]
    ensures passed < frameCount ==> !st.flags[v]
    ensures var r := Step(Clock, pages, frameCount, i, u, st);
      && r.memory == st.memory[v := pages[i]]
      && r.flags[v]
      && (forall q :: 0 <= q < frameCount && q != v ==>
            r.flags[q] == (st.flags[q] && Dist(st.pointer, q, frameCount) >= passed))
      && r.pointer == Next(v, frameCount)
  {
    var sw := ClockSweep(st.flags, st.pointer);
    SweepClearsPassedBits(st.flags, st.pointer);
    NextIsMod(sw.pointer, frameCount);
    v, passed := sw.pointer, sw.passed;
    if passed < frameCount {
      DistAdvance(st.pointer, passed, frameCount);
    }
  }

  /** Moving the hand `t < n` times from `h` lands at distance `t` from `h`. */
  lemma {:induction false} DistAdvance(h: nat, t: nat, n: nat)
    requires h < n && t < n
    ensures Dist(h, Advance(h, t, n), n) == t
    decreases t
  {
    if t > 0 {
      DistAdvance(h, t - 1, n);
      AdvanceLast(h, t, n);
    }
  }

  /** The last move of the hand, taken from the other end. */
  lemma {:induction false} AdvanceLast(h: nat, t: nat, n: nat)
    requires t > 0
    ensures Advance(h, t, n) == Next(Advance(h, t - 1, n), n)
    decreases t
  {
    if t > 1 {
      AdvanceLast(Next(h, n), t - 1, n);
    }
  }

  // ---------------------------------------------------------------- nfu

  /** How many times `p` occurs in `s`. */
  function Occurrences(s: seq<Page>, p: Page): nat {
    if |s| == 0 then 0
    else Occurrences(s[..|s| - 1], p) + (if s[|s| - 1] == p then 1 else 0)
  }

  /** NFU counts every reference to a page, the faulting ones included, and
      never forgets a count when the page is evicted: after any prefix, each
      page's counter is its number of occurrences in that prefix. */
  lemma {:induction false} NfuCountsEveryReference(pages: seq<Page>, frameCount: nat, draws: seq<real>, n: nat, p: Page)
    requires frameCount >= 1 && n <= |pages| && |draws| == |pages| && ValidDraws(draws)
    ensures Counter(Run(Nfu, pages, frameCount, draws, n).freq, p) == Occurrences(pages[..n], p)
    decreases n
  {
    if n > 0 {
      NfuCountsEveryReference(pages, frameCount, draws, n - 1, p);
      NfuCountStep(pages, frameCount, draws, n, p);
    }
  }

  /** The inductive step of `NfuCountsEveryReference`. */
  lemma NfuCountStep(pages: seq<Page>, frameCount: nat, draws: seq<real>, n: nat, p: Page)
    requires frameCount >= 1 && 0 < n <= |pages| && |draws| == |pages| && ValidDraws(draws)
    requires Counter(Run(Nfu, pages, frameCount, draws, n - 1).freq, p) == Occurrences(pages[..n - 1], p)
    ensures Counter(Run(Nfu, pages, frameCount, draws, n).freq, p) == Occurrences(pages[..n], p)
  {
    var prev := Run(Nfu, pages, frameCount, draws, n - 1);
    RunUnfolds(Nfu, pages, frameCount, draws, n);
    NfuCountsReference(pages, frameCount, n - 1, draws[n - 1], prev);
    assert pages[..n][..n - 1] == pages[..n - 1];
  }

  /** Every NFU iteration adds one to the referenced page's counter, hit or
      fault, and leaves every other counter alone. */
  lemma NfuCountsReference(pages: seq<Page>, frameCount: nat, i: nat, u: real, st: State)
    requires i < |pages| && 0.0 <= u < 1.0 && Valid(st, frameCount)
    ensures Step(Nfu, pages, frameCount, i, u, st).freq == st.freq[pages[i] := Counter(st.freq, pages[i]) + 1]
  {
    if pages[i] in st.memory {
    } else if |st.memory| < frameCount {
    } else {
    }
  }

  /** NFU, on a fault with every frame in use, overwrites the first slot whose
      page has the smallest counter, the faulting page's own reference already
      counted. */
  lemma NfuReplacesLeastCounted(pages: seq<Page>, frameCount: nat, i: nat, u: real, st: State) returns (v: nat)
    requires i < |pages| && 0.0 <= u < 1.0 && Valid(st, frameCount)
    requires pages[i] !in st.memory && |st.memory| == frameCount
    ensures var r := Step(Nfu, pages, frameCount, i, u, st);
      && r.freq == st.freq[pages[i] := Counter(st.freq, pages[i]) + 1]
      && LeastCounted(st.memory, r.freq, v)
      && r.memory == st.memory[v := pages[i]]
  {
    var freq := st.freq[pages[i] := Counter(st.freq, pages[i]) + 1];
    v := MinScan(st.memory, freq, 0, Infinity, 0);
    MinScanChooses(st.memory, freq, 0, Infinity, 0);
  }

  // ---------------------------------------------------------------- random

  /** Random, on a fault with every frame in use, overwrites one slot; for any
      value of the draw the frames stay within capacity and duplicate-free. */
  lemma RandomReplacesSomeSlot(pages: seq<Page>, frameCount: nat, i: nat, u: real, st: State) returns (k: nat)
    requires i < |pages| && 0.0 <= u < 1.0 && Valid(st, frameCount)
    requires pages[i] !in st.memory && |st.memory| == frameCount
    ensures k < frameCount
    ensures var r := Step(Random, pages, frameCount, i, u, st);
      r.memory == st.memory[k := pages[i]] && |r.memory| == frameCount && NoDups(r.memory)
  {
    k := RandomIndex(u, frameCount);
  }

  // ---------------------------------------------------------------- every policy

  /** A page referenced for the first time cannot be resident, so it adds a
      fault for each new distinct page. */
  lemma FirstReferenceFaults(alg: Policy, pages: seq<Page>, frameCount: nat, i: nat, u: real, st: State)
    requires i < |pages| && 0.0 <= u < 1.0 && Valid(st, frameCount)
    requires forall p :: p in st.memory ==> p in pages[..i]
    requires st.faults >= |Elems(pages[..i])|
    ensures Step(alg, pages, frameCount, i, u, st).faults >= |Elems(pages[..i + 1])|
  {
    var p := pages[i];
    assert pages[..i + 1] == pages[..i] + [p];
    assert Elems(pages[..i + 1]) == Elems(pages[..i]) + {p};
    if p !in pages[..i] {
      assert |Elems(pages[..i + 1])| == |Elems(pages[..i])| + 1;
    }
  }

  /** Every distinct page faults at least once, whatever the policy: the
      first reference to a page can never find it resident. */
  lemma {:induction false} CompulsoryFaults(alg: Policy, pages: seq<Page>, frameCount: nat, draws: seq<real>, n: nat)
    requires frameCount >= 1 && n <= |pages| && |draws| == |pages| && ValidDraws(draws)
    ensures Run(alg, pages, frameCount, draws, n).faults >= |Elems(pages[..n])|
    decreases n
  {
    if n == 0 {
      assert Elems(pages[..0]) == {};
    } else {
      CompulsoryFaults(alg, pages, frameCount, draws, n - 1);
      CompulsoryStep(alg, pages, frameCount, draws, n);
    }
  }

  /** The inductive step of `CompulsoryFaults`. */
  lemma CompulsoryStep(alg: Policy, pages: seq<Page>, frameCount: nat, draws: seq<real>, n: nat)
    requires frameCount >= 1 && 0 < n <= |pages| && |draws| == |pages| && ValidDraws(draws)
    requires Run(alg, pages, frameCount, draws, n - 1).faults >= |Elems(pages[..n - 1])|
    ensures Run(alg, pages, frameCount, draws, n).faults >= |Elems(pages[..n])|
  {
    var prev := Run(alg, pages, frameCount, draws, n - 1);
    FirstReferenceFaults(alg, pages, frameCount, n - 1, draws[n - 1], prev);
    RunUnfolds(alg, pages, frameCount, draws, n);
  }

  // ---------------------------------------------------------------- random draws

  /** Only the random policy reads `Math.random()`: every other policy's
      iteration is the same whatever value is drawn. */
  lemma StepIgnoresDraw(alg: Policy, pages: seq<Page>, frameCount: nat, i: nat, u: real, w: real, st: State)
    requires alg != Random && i < |pages| && 0.0 <= u < 1.0 && 0.0 <= w < 1.0 && Valid(st, frameCount)
    ensures Step(alg, pages, frameCount, i, u, st) == Step(alg, pages, frameCount, i, w, st)
  {
  }

  /** Two runs of the same policy that differ only in their draws agree
      after their first `n` iterations. */
  predicate SameRun(alg: Policy, pages: seq<Page>, frameCount: nat, draws: seq<real>, other: seq<real>, n: nat)
    requires frameCount >= 1 && n <= |pages|
    requires |draws| == |pages| && ValidDraws(draws) && |other| == |pages| && ValidDraws(other)
  {
    Run(alg, pages, frameCount, draws, n) == Run(alg, pages, frameCount, other, n)
  }

  /** So two runs of a policy other than random agree, whatever each draws. */
  lemma {:induction false} RunIgnoresDraws(alg: Policy, pages: seq<Page>, frameCount: nat, draws: seq<real>, other: seq<real>, n: nat)
    requires alg != Random && frameCount >= 1 && n <= |pages|
    requires |draws| == |pages| && ValidDraws(draws) && |other| == |pages| && ValidDraws(other)
    ensures SameRun(alg, pages, frameCount, draws, other, n)
    decreases n
  {
    if n > 0 {
      RunIgnoresDraws(alg, pages, frameCount, draws, other, n - 1);
      NextIgnoresDraw(alg, pages, frameCount, draws, other, n);
    }
  }

  /** One iteration on from states that agree keeps them in agreement. */
  lemma NextIgnoresDraw(alg: Policy, pages: seq<Page>, frameCount: nat, draws: seq<real>, other: seq<real>, n: nat)
    requires alg != Random && frameCount >= 1 && 0 < n <= |pages|
    requires |draws| == |pages| && ValidDraws(draws) && |other| == |pages| && ValidDraws(other)
    requires SameRun(alg, pages, frameCount, draws, other, n - 1)
    ensures SameRun(alg, pages, frameCount, draws, other, n)
  {
    RunUnfolds(alg, pages, frameCount, draws, n);
    RunUnfolds(alg, pages, frameCount, other, n);
    StepIgnoresDraw(alg, pages, frameCount, n - 1, draws[n - 1], other[n - 1], Run(alg, pages, frameCount, draws, n - 1));
  }
}
