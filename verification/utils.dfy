/** The helpers the panels call on the engine's results: the working-set
    size of the recent history, the hit percentage, and the description shown
    for a policy name. */
module Utils {
  import opened Pages
  import opened Simulator
  import opened Belady
  import opened Optimality
  import opened Live

  // ---------------------------------------------------------------- slice

  /** Where a bound of `slice` lands in a sequence of length `n`: a negative
      bound counts back from the end, and the result is clamped into [0, n]. */
  function SliceBound(i: int, n: nat): (b: nat)
    ensures b <= n
    ensures 0 <= i ==> b == if i <= n then i else n
  {
    if i < 0 then (if n + i < 0 then 0 else n + i)
    else if i <= n then i
    else n
  }

  /** `s.slice(start, end)`: empty when the clamped bounds cross. */
  function Slice<T>(s: seq<T>, start: int, end: int): (r: seq<T>)
    ensures |r| <= |s|
    ensures 0 <= start <= end <= |s| ==> r == s[start..end]
  {
    var lo, hi := SliceBound(start, |s|), SliceBound(end, |s|);
    if lo < hi then s[lo..hi] else []
  }

  // ---------------------------------------------------------------- working set

  /** `new Set(items.map(item => item.page))`, as a set. */
  function PageSet(items: seq<HistoryItem>): set<Page> {
    set k | 0 <= k < |items| :: items[k].page
  }

  /** The pages recorded at history positions `lo` up to `hi`, leaving out
      positions the history does not have. */
  function PagesBetween(history: seq<HistoryItem>, lo: int, hi: int): set<Page> {
    set k | 0 <= k < |history| && lo <= k < hi :: history[k].page
  }

  /** `calculateWorkingSet(history, windowSize, currentStep)`: the number of
      distinct pages among the last `windowSize` steps before `currentStep`,
      or among all of them while fewer have been taken. */
  function WorkingSet(history: seq<HistoryItem>, windowSize: int, currentStep: nat): (r: nat)
    ensures windowSize <= 0 ==> r == 0
  {
    if currentStep < windowSize then |PageSet(Slice(history, 0, currentStep))|
    else
      var w := Slice(history, currentStep - windowSize, currentStep);
      assert windowSize <= 0 ==> w == [];
      |PageSet(w)|
  }

  /** A slice of the history holds the pages between its clamped bounds. */
  lemma SlicePages(history: seq<HistoryItem>, lo: int, hi: nat)
    requires 0 <= lo
    ensures PageSet(Slice(history, lo, hi)) == PagesBetween(history, lo, hi)
  {
    var w := Slice(history, lo, hi);
    var a, b := SliceBound(lo, |history|), SliceBound(hi, |history|);
    forall p | p in PagesBetween(history, lo, hi)
      ensures p in PageSet(w)
    {
      var k :| 0 <= k < |history| && lo <= k < hi && history[k].page == p;
      assert w[k - a] == history[k];
    }
    forall p | p in PageSet(w)
      ensures p in PagesBetween(history, lo, hi)
    {
      var k :| 0 <= k < |w| && w[k].page == p;
      assert w[k] == history[a + k];
    }
  }

  /** The working set counts exactly the distinct pages at history positions
      `currentStep - windowSize` up to `currentStep`. */
  lemma WorkingSetIsWindow(history: seq<HistoryItem>, windowSize: int, currentStep: nat)
    ensures WorkingSet(history, windowSize, currentStep) == |PagesBetween(history, currentStep - windowSize, currentStep)|
  {
    if currentStep < windowSize {
      SlicePages(history, 0, currentStep);
      assert PagesBetween(history, 0, currentStep) == PagesBetween(history, currentStep - windowSize, currentStep);
    } else {
      SlicePages(history, currentStep - windowSize, currentStep);
    }
  }

  /** A run of positions names at most as many pages as it has positions. */
  lemma {:induction false} PagesBetweenCard(history: seq<HistoryItem>, lo: nat, hi: nat)
    requires lo <= hi
    ensures |PagesBetween(history, lo, hi)| <= hi - lo
    decreases hi - lo
  {
    if lo < hi {
      PagesBetweenCard(history, lo + 1, hi);
      var rest := PagesBetween(history, lo + 1, hi);
      if lo < |history| {
        assert PagesBetween(history, lo, hi) == rest + {history[lo].page};
      } else {
        assert PagesBetween(history, lo, hi) == rest;
      }
    } else {
      assert PagesBetween(history, lo, hi) == {};
    }
  }

  /** The working set never exceeds the window or the number of steps taken,
      and a window of zero or fewer steps is empty. */
  lemma WorkingSetBounds(history: seq<HistoryItem>, windowSize: int, currentStep: nat)
    ensures WorkingSet(history, windowSize, currentStep) <= currentStep
    ensures windowSize >= 0 ==> WorkingSet(history, windowSize, currentStep) <= windowSize
    ensures windowSize <= 0 ==> WorkingSet(history, windowSize, currentStep) == 0
  {
    WorkingSetIsWindow(history, windowSize, currentStep);
    var lo := if currentStep - windowSize < 0 then 0 else currentStep - windowSize;
    if lo <= currentStep {
      assert PagesBetween(history, currentStep - windowSize, currentStep) == PagesBetween(history, lo, currentStep);
      PagesBetweenCard(history, lo, currentStep);
    }
  }

  /** Once a step has been recorded, a window of at least one step holds at
      least the page of the latest step. */
  lemma WorkingSetNonEmpty(history: seq<HistoryItem>, windowSize: int, currentStep: nat)
    requires windowSize >= 1 && 1 <= currentStep <= |history|
    ensures WorkingSet(history, windowSize, currentStep) >= 1
  {
    WorkingSetIsWindow(history, windowSize, currentStep);
    assert history[currentStep - 1].page in PagesBetween(history, currentStep - windowSize, currentStep);
  }

  /** For a fixed step, widening the window never shrinks the working set. */
  lemma WorkingSetMonotone(history: seq<HistoryItem>, narrow: int, wide: int, currentStep: nat)
    requires narrow <= wide
    ensures WorkingSet(history, narrow, currentStep) <= WorkingSet(history, wide, currentStep)
  {
    WorkingSetIsWindow(history, narrow, currentStep);
    WorkingSetIsWindow(history, wide, currentStep);
    SubsetCard(PagesBetween(history, currentStep - narrow, currentStep), PagesBetween(history, currentStep - wide, currentStep));
  }

  /** Only the entries inside the window count: two histories with the same
      pages at the window's positions have the same working set. */
  lemma WorkingSetLocal(h1: seq<HistoryItem>, h2: seq<HistoryItem>, windowSize: int, currentStep: nat)
    requires forall k :: 0 <= k && currentStep - windowSize <= k < currentStep ==>
               (k < |h1| <==> k < |h2|) && (k < |h1| ==> h1[k].page == h2[k].page)
    ensures WorkingSet(h1, windowSize, currentStep) == WorkingSet(h2, windowSize, currentStep)
  {
    WorkingSetIsWindow(h1, windowSize, currentStep);
    WorkingSetIsWindow(h2, windowSize, currentStep);
    var lo := currentStep - windowSize;
    forall p | p in PagesBetween(h1, lo, currentStep)
      ensures p in PagesBetween(h2, lo, currentStep)
    {
      var k :| 0 <= k < |h1| && lo <= k < currentStep && h1[k].page == p;
      assert h2[k].page == p;
    }
    forall p | p in PagesBetween(h2, lo, currentStep)
      ensures p in PagesBetween(h1, lo, currentStep)
    {
      var k :| 0 <= k < |h2| && lo <= k < currentStep && h2[k].page == p;
      assert h1[k].page == p;
    }
    assert PagesBetween(h1, lo, currentStep) == PagesBetween(h2, lo, currentStep);
  }

  // ---------------------------------------------------------------- efficiency

  /** `calculateEfficiency(hits, total)`: the hit percentage, 0 for no
      references. */
  function Efficiency(hits: nat, total: nat): (r: real)
    ensures total == 0 ==> r == 0.0
    ensures total > 0 ==> r * total as real == hits as real * 100.0
    ensures hits <= total ==> 0.0 <= r <= 100.0
  {
    if total == 0 then 0.0
    else
      var ratio := hits as real / total as real;
      assert hits <= total ==> ratio <= 1.0;
      ratio * 100.0
  }

  /** On a non-empty run the efficiency is the comparison table's hit
      percentage. */
  lemma EfficiencyIsHitPercent(hits: nat, total: nat)
    requires total > 0
    ensures HitPercent(hits, total) == Some(Efficiency(hits, total))
  {
  }

  /** More hits over the same references never lower the efficiency. */
  lemma EfficiencyMonotone(fewer: nat, more: nat, total: nat)
    requires fewer <= more
    ensures Efficiency(fewer, total) <= Efficiency(more, total)
  {
    if total > 0 {
      assert fewer as real / total as real <= more as real / total as real;
    }
  }

  /** The optimal policy's efficiency is at least every other policy's on the
      same references. */
  lemma OptimalMostEfficient(alg: Policy, pages: seq<Page>, frameCount: nat, draws: seq<real>)
    requires frameCount >= 1 && |draws| == |pages| && ValidDraws(draws)
    ensures Efficiency(SimulateAlgorithm(alg, pages, frameCount, draws).pageHits, |pages|)
         <= Efficiency(SimulateAlgorithm(Optimal, pages, frameCount, draws).pageHits, |pages|)
  {
    OptimalNeverWorse(alg, pages, frameCount, draws, draws);
    EfficiencyMonotone(SimulateAlgorithm(alg, pages, frameCount, draws).pageHits,
                       SimulateAlgorithm(Optimal, pages, frameCount, draws).pageHits, |pages|);
  }

  // ---------------------------------------------------------------- descriptions

  /** The text shown when a name matches no policy. */
  const Fallback: string := "No description available."

  /** The description of each policy. */
  function Description(alg: Policy): (r: string)
  {
    match alg
    case Fifo => "First-In-First-Out (FIFO) replaces the oldest page in memory. It's simple but doesn't consider page usage patterns."
    case Lru => "Least Recently Used (LRU) replaces the page that hasn't been accessed for the longest time. It works well for most workloads but requires tracking access history."
    case Optimal => "Optimal algorithm replaces the page that won't be used for the longest time in the future. It's theoretical and requires future knowledge, but provides a benchmark for other algorithms."
    case Clock => "Clock algorithm (Second Chance) is an approximation of LRU that uses a reference bit and circular queue to give pages a second chance before replacement."
    case Nfu => "Not Frequently Used (NFU) replaces the page with the lowest access frequency. It works well for frequency-based access patterns."
    case Random => "Random replacement selects a random page to replace. Simple but unpredictable performance."
  }

  /** The policy whose own key in the description table is `key`. */
  function KeyPolicy(key: string): (r: Option<Policy>)
    ensures r.Some? ==> Tag(r.value) == key
    ensures r.None? ==> forall alg :: Tag(alg) != key
  {
    if key == "fifo" then Some(Fifo)
    else if key == "lru" then Some(Lru)
    else if key == "optimal" then Some(Optimal)
    else if key == "clock" then Some(Clock)
    else if key == "nfu" then Some(Nfu)
    else if key == "random" then Some(Random)
    else None
  }

  /** `getAlgorithmDescription(algorithm)` looking at the table's own keys
      only: the lower-cased name picks a policy's description, anything else
      gets the fallback. */
  function Describe(algorithm: string): (r: string)
  {
    match KeyPolicy(Lower(algorithm))
    case Some(alg) => Description(alg)
    case None => Fallback
  }

  /** A name that lower-cases to a policy's identifier gets that policy's
      description, whatever its case. */
  lemma DescribeKnown(algorithm: string, alg: Policy)
    requires Lower(algorithm) == Tag(alg)
    ensures Describe(algorithm) == Description(alg)
  {
    var r := KeyPolicy(Lower(algorithm));
    assert r.Some? && Tag(r.value) == Tag(alg);
    assert r.value == alg by {
      match alg
      case Fifo =>
      case Lru =>
      case Optimal =>
      case Clock =>
      case Nfu =>
      case Random =>
    }
  }

  /** A name that lower-cases to no policy's identifier gets the fallback. */
  lemma DescribeFallback(algorithm: string)
    requires forall alg :: Tag(alg) != Lower(algorithm)
    ensures Describe(algorithm) == Fallback
  {
  }

  /** Names that differ only in case get the same description. */
  lemma DescribeIgnoresCase(a: string, b: string)
    requires Lower(a) == Lower(b)
    ensures Describe(a) == Describe(b)
  {
  }

  /** The comparison table's upper-case column headers get their policy's
      description. */
  lemma DescribeColumnHeader(alg: Policy)
    ensures Describe(Name(alg)) == Description(alg)
  {
    DescribeKnown(Name(alg), alg);
  }

  /** What the source's lookup can return: a description string, or a member
      every object inherits, which the lookup's fallback never replaces. */
  datatype Lookup = Text(text: string) | Inherited(member: string)

  /** The members of `Object.prototype` whose names are already lower case,
      so that a lower-cased name can reach them. */
  const InheritedKeys: set<string> := {"constructor", "__proto__"}

  /** `getAlgorithmDescription` as written: the table is a plain object, so
      `descriptions[key]` also finds the inherited members, which are truthy. */
  function DescribeAsWritten(algorithm: string): (r: Lookup)
    ensures r.Inherited? <==> Lower(algorithm) in InheritedKeys
  {
    var key := Lower(algorithm);
    match KeyPolicy(key)
    case Some(alg) => Text(Description(alg))
    case None => if key in InheritedKeys then Inherited(key) else Text(Fallback)
  }

  /** "Constructor" returns the inherited constructor, not a string. */
  lemma AsWrittenLeaksConstructor()
    ensures DescribeAsWritten("Constructor") == Inherited("constructor")
    ensures Describe("Constructor") == Fallback
  {
    assert Lower("Constructor") == "constructor";
  }

  /** Away from the inherited names, the source's lookup and `Describe`
      agree. */
  lemma AsWrittenAgrees(algorithm: string)
    requires Lower(algorithm) !in InheritedKeys
    ensures DescribeAsWritten(algorithm) == Text(Describe(algorithm))
  {
  }
}
