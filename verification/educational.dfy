/** The educational panel's own implementations of five policies, each on
    the data structures it uses there: a `Set` of resident pages (kept here
    in insertion order, as iteration sees it) with a FIFO queue or a usage
    list beside it, an array of frames with reference bits, and a `Map` from
    page to use count and time stamp. Only the fault count and the final
    memory are modelled, not the step log. */
module Educational {
  import opened Pages
  import opened Simulator

  /** What every implementation reports. */
  datatype EduResult = EduResult(pageFaults: nat, finalMemory: seq<Page>)

  // ---------------------------------------------------------------- FIFO

  datatype FifoState = FifoState(memory: seq<Page>, queue: seq<Page>, faults: nat)

  /** `memory` and `queue` hold the same pages, none twice, and no more than
      the frames. */
  predicate FifoValid(frameCount: nat, st: FifoState) {
    && NoDups(st.memory) && NoDups(st.queue)
    && Elems(st.memory) == Elems(st.queue)
    && |st.memory| <= frameCount
  }

  /** One reference of `fifoAlgorithm`: a fault on a full memory deletes the
      queue's head from the set; the new page joins both. */
  function FifoStep(frameCount: nat, st: FifoState, page: Page): (r: FifoState)
    requires frameCount >= 1 && FifoValid(frameCount, st)
    ensures FifoValid(frameCount, r)
    ensures page in r.memory
    ensures r.faults == st.faults + (if page in st.memory then 0 else 1)
    ensures page !in st.memory && |st.memory| >= frameCount ==>
              |st.queue| > 0 && r.queue == st.queue[1..] + [page] && st.queue[0] !in r.memory
  {
    if page in st.memory then st
    else
      NoDupsCard(st.memory);
      NoDupsCard(st.queue);
      if |st.memory| >= frameCount then
        var removed := st.queue[0];
        assert page !in Elems(st.queue);
        assert removed in Elems(st.memory);
        WithoutElems(st.memory, removed);
        ShiftPush(st.queue, page);
        FifoState(SetAdd(Without(st.memory, removed), page), st.queue[1..] + [page], st.faults + 1)
      else
        NoDupsSnoc(st.queue, page);
        FifoState(SetAdd(st.memory, page), st.queue + [page], st.faults + 1)
  }

  /** A set listed in the queue's order stays listed in the queue's order:
      deleting the queue's head from the set drops the set's first page. */
  lemma FifoStepKeepsOrder(frameCount: nat, st: FifoState, page: Page)
    requires frameCount >= 1 && FifoValid(frameCount, st) && st.memory == st.queue
    ensures var r := FifoStep(frameCount, st, page); r.memory == r.queue
  {
    if page !in st.memory && |st.memory| >= frameCount {
      var rest := st.memory[1..];
      WithoutResident(st.memory, 0);
      assert Without(st.memory, st.queue[0]) == rest by {
        assert st.memory[..0] + rest == rest;
      }
      assert SetAdd(rest, page) == rest + [page] by {
        assert page !in rest;
      }
    }
  }

  function FifoRun(pages: seq<Page>, frameCount: nat, n: nat): (st: FifoState)
    requires frameCount >= 1 && n <= |pages|
    ensures FifoValid(frameCount, st) && st.faults <= n
  {
    if n == 0 then FifoState([], [], 0)
    else FifoStep(frameCount, FifoRun(pages, frameCount, n - 1), pages[n - 1])
  }

  /** Consecutive FIFO states: `t[k + 1]` is one reference on from `t[k]`. */
  predicate FifoLinked(pages: seq<Page>, frameCount: nat, t: seq<FifoState>, k: nat) {
    && k + 1 < |t| && k < |pages| && frameCount >= 1
    && FifoValid(frameCount, t[k])
    && t[k + 1] == FifoStep(frameCount, t[k], pages[k])
  }

  /** The FIFO state after every prefix. */
  function FifoTrace(pages: seq<Page>, frameCount: nat): (t: seq<FifoState>)
    requires frameCount >= 1
    ensures |t| == |pages| + 1
    ensures forall n :: 0 <= n <= |pages| ==> t[n] == FifoRun(pages, frameCount, n)
  {
    seq(|pages| + 1, n requires 0 <= n <= |pages| => FifoRun(pages, frameCount, n))
  }

  lemma FifoTraceLinked(pages: seq<Page>, frameCount: nat)
    requires frameCount >= 1
    ensures var t := FifoTrace(pages, frameCount);
            t[0] == FifoState([], [], 0) && forall k :: 0 <= k < |pages| ==> FifoLinked(pages, frameCount, t, k)
  {
    var t := FifoTrace(pages, frameCount);
    forall k | 0 <= k < |pages|
      ensures FifoLinked(pages, frameCount, t, k)
    {
      assert t[k + 1] == FifoRun(pages, frameCount, k + 1);
    }
  }

  /** `fifoAlgorithm(pages, frameCount)`. */
  function EduFifo(pages: seq<Page>, frameCount: nat): (r: EduResult)
    requires frameCount >= 1
    ensures r.pageFaults <= |pages| && |r.finalMemory| <= frameCount && NoDups(r.finalMemory)
  {
    var st := FifoRun(pages, frameCount, |pages|);
    EduResult(st.faults, st.memory)
  }

  // ---------------------------------------------------------------- LRU

  datatype LruState = LruState(memory: seq<Page>, recentlyUsed: seq<Page>, faults: nat)

  /** `memory` and the usage list hold the same pages, none twice, and no
      more than the frames. */
  predicate LruValid(frameCount: nat, st: LruState) {
    && NoDups(st.memory) && NoDups(st.recentlyUsed)
    && Elems(st.memory) == Elems(st.recentlyUsed)
    && |st.memory| <= frameCount
  }

  /** One reference of `lruAlgorithm`: a hit splices the page out of the
      usage list and appends it; a fault on a full memory evicts the list's
      head; the set itself is only touched on a fault. */
  function LruStep(frameCount: nat, st: LruState, page: Page): (r: LruState)
    requires frameCount >= 1 && LruValid(frameCount, st)
    ensures LruValid(frameCount, r)
    ensures page in r.memory && r.recentlyUsed[|r.recentlyUsed| - 1] == page
    ensures r.faults == st.faults + (if page in st.memory then 0 else 1)
    ensures page in st.memory ==> IndexOf(st.recentlyUsed, page) != -1 && r.memory == st.memory
  {
    NoDupsCard(st.memory);
    NoDupsCard(st.recentlyUsed);
    if page !in st.memory then
      if |st.memory| >= frameCount then
        var removed := st.recentlyUsed[0];
        assert page !in Elems(st.recentlyUsed);
        assert removed in Elems(st.memory);
        WithoutElems(st.memory, removed);
        ShiftPush(st.recentlyUsed, page);
        LruState(SetAdd(Without(st.memory, removed), page), st.recentlyUsed[1..] + [page], st.faults + 1)
      else
        assert page !in Elems(st.recentlyUsed);
        NoDupsSnoc(st.recentlyUsed, page);
        LruState(SetAdd(st.memory, page), st.recentlyUsed + [page], st.faults + 1)
    else
      assert page in Elems(st.recentlyUsed);
      st.(recentlyUsed := Touch(st.recentlyUsed, page))
  }

  /** The hit branch's update of the usage list: splice the page out where
      `indexOf` finds it and push it at the end. */
  function Touch(ru: seq<Page>, page: Page): (r: seq<Page>)
    requires NoDups(ru) && page in ru
    ensures IndexOf(ru, page) != -1
    ensures NoDups(r) && Elems(r) == Elems(ru) && |r| == |ru|
    ensures r[|r| - 1] == page && r[..|r| - 1] == Without(ru, page)
  {
    var k := IndexOf(ru, page);
    WithoutResident(ru, k);
    var r := SpliceOne(ru, k) + [page];
    assert r[..|r| - 1] == Without(ru, page);
    NoDupsSnoc(Without(ru, page), page);
    assert r == Without(ru, page) + [page];
    r
  }

  function LruRun(pages: seq<Page>, frameCount: nat, n: nat): (st: LruState)
    requires frameCount >= 1 && n <= |pages|
    ensures LruValid(frameCount, st) && st.faults <= n
  {
    if n == 0 then LruState([], [], 0)
    else LruStep(frameCount, LruRun(pages, frameCount, n - 1), pages[n - 1])
  }

  /** Consecutive states of an LRU trace are one reference apart. */
  predicate LruLinked(pages: seq<Page>, frameCount: nat, t: seq<LruState>, k: nat) {
    && k + 1 < |t| && k < |pages| && frameCount >= 1
    && LruValid(frameCount, t[k])
    && t[k + 1] == LruStep(frameCount, t[k], pages[k])
  }

  /** The LRU state after every prefix. */
  function LruTrace(pages: seq<Page>, frameCount: nat): (t: seq<LruState>)
    requires frameCount >= 1
    ensures |t| == |pages| + 1
    ensures forall n :: 0 <= n <= |pages| ==> t[n] == LruRun(pages, frameCount, n)
  {
    seq(|pages| + 1, n requires 0 <= n <= |pages| => LruRun(pages, frameCount, n))
  }

  lemma LruTraceLinked(pages: seq<Page>, frameCount: nat)
    requires frameCount >= 1
    ensures var t := LruTrace(pages, frameCount);
            t[0] == LruState([], [], 0) && forall k :: 0 <= k < |pages| ==> LruLinked(pages, frameCount, t, k)
  {
    var t := LruTrace(pages, frameCount);
    forall k | 0 <= k < |pages|
      ensures LruLinked(pages, frameCount, t, k)
    {
      assert t[k + 1] == LruRun(pages, frameCount, k + 1);
    }
  }

  /** `lruAlgorithm(pages, frameCount)`. */
  function EduLru(pages: seq<Page>, frameCount: nat): (r: EduResult)
    requires frameCount >= 1
    ensures r.pageFaults <= |pages| && |r.finalMemory| <= frameCount && NoDups(r.finalMemory)
  {
    var st := LruRun(pages, frameCount, |pages|);
    EduResult(st.faults, st.memory)
  }

  // ---------------------------------------------------------------- optimal

  /** The inner look-ahead loop: the first position at or after `j` that
      requests `p`, or `|pages|` when none does. */
  function ScanAhead(pages: seq<Page>, p: Page, j: nat): (r: nat)
    requires j <= |pages|
    ensures j <= r <= |pages|
    ensures r < |pages| ==> pages[r] == p
    ensures forall k :: j <= k < r ==> pages[k] != p
    decreases |pages| - j
  {
    if j == |pages| then j
    else if pages[j] == p then j
    else ScanAhead(pages, p, j + 1)
  }

  /** The victim loop over the set, in insertion order: stop at the first
      page never requested again, otherwise keep the first page whose next
      request is strictly farther than every earlier one. The source keeps
      the page itself; the model keeps its position in the set. */
  function EduOptimalScan(memory: seq<Page>, pages: seq<Page>, from: nat, k: nat, farthest: int, toReplace: nat): (v: nat)
    requires from <= |pages| && 0 < |memory| && k <= |memory|
    requires k == 0 ==> farthest == -1 && toReplace == 0
    requires k > 0 ==> toReplace < k && farthest == ScanAhead(pages, memory[toReplace], from) < |pages|
    requires forall j :: 0 <= j < k ==> ScanAhead(pages, memory[j], from) <= farthest
    requires forall j :: 0 <= j < toReplace ==> ScanAhead(pages, memory[j], from) < farthest
    ensures v < |memory|
    ensures forall j :: 0 <= j < |memory| ==> ScanAhead(pages, memory[j], from) <= ScanAhead(pages, memory[v], from)
    ensures forall j :: 0 <= j < v ==> ScanAhead(pages, memory[j], from) < ScanAhead(pages, memory[v], from)
    decreases |memory| - k
  {
    if k == |memory| then toReplace
    else
      var j := ScanAhead(pages, memory[k], from);
      if j == |pages| then k
      else if j > farthest then EduOptimalScan(memory, pages, from, k + 1, j, k)
      else EduOptimalScan(memory, pages, from, k + 1, farthest, toReplace)
  }

  datatype OptState = OptState(memory: seq<Page>, faults: nat)

  predicate OptValid(frameCount: nat, st: OptState) {
    NoDups(st.memory) && |st.memory| <= frameCount
  }

  /** One reference of `optimalAlgorithm`: on a fault with a full set, the
      victim is deleted and the new page added at the end of the set. */
  function OptStep(pages: seq<Page>, frameCount: nat, i: nat, st: OptState): (r: OptState)
    requires frameCount >= 1 && i < |pages| && OptValid(frameCount, st)
    ensures OptValid(frameCount, r)
    ensures pages[i] in r.memory
    ensures r.faults == st.faults + (if pages[i] in st.memory then 0 else 1)
    ensures pages[i] in st.memory ==> r.memory == st.memory
    ensures pages[i] !in st.memory && |st.memory| < frameCount ==> r.memory == st.memory + [pages[i]]
    ensures pages[i] !in st.memory && |st.memory| >= frameCount ==>
              var v := EduOptimalScan(st.memory, pages, i + 1, 0, -1, 0);
              r.memory == Without(st.memory, st.memory[v]) + [pages[i]]
  {
    var page := pages[i];
    if page in st.memory then st
    else if |st.memory| >= frameCount then
      var v := EduOptimalScan(st.memory, pages, i + 1, 0, -1, 0);
      WithoutResident(st.memory, v);
      WithoutElems(st.memory, st.memory[v]);
      OptState(SetAdd(Without(st.memory, st.memory[v]), page), st.faults + 1)
    else
      NoDupsSnoc(st.memory, page);
      OptState(SetAdd(st.memory, page), st.faults + 1)
  }

  function OptRun(pages: seq<Page>, frameCount: nat, n: nat): (st: OptState)
    requires frameCount >= 1 && n <= |pages|
    ensures OptValid(frameCount, st) && st.faults <= n
  {
    if n == 0 then OptState([], 0)
    else OptStep(pages, frameCount, n - 1, OptRun(pages, frameCount, n - 1))
  }

  /** Consecutive educational optimal states: `t[k + 1]` is one reference on
      from `t[k]`. */
  predicate OptLinked(pages: seq<Page>, frameCount: nat, t: seq<OptState>, k: nat) {
    && k + 1 < |t| && k < |pages| && frameCount >= 1
    && OptValid(frameCount, t[k])
    && t[k + 1] == OptStep(pages, frameCount, k, t[k])
  }

  /** The educational optimal state after every prefix. */
  function OptTrace(pages: seq<Page>, frameCount: nat): (t: seq<OptState>)
    requires frameCount >= 1
    ensures |t| == |pages| + 1
    ensures forall n :: 0 <= n <= |pages| ==> t[n] == OptRun(pages, frameCount, n)
  {
    seq(|pages| + 1, n requires 0 <= n <= |pages| => OptRun(pages, frameCount, n))
  }

  lemma OptTraceLinked(pages: seq<Page>, frameCount: nat)
    requires frameCount >= 1
    ensures var t := OptTrace(pages, frameCount);
            t[0] == OptState([], 0) && forall k :: 0 <= k < |pages| ==> OptLinked(pages, frameCount, t, k)
  {
    var t := OptTrace(pages, frameCount);
    forall k | 0 <= k < |pages|
      ensures OptLinked(pages, frameCount, t, k)
    {
      assert t[k + 1] == OptRun(pages, frameCount, k + 1);
    }
  }

  /** `optimalAlgorithm(pages, frameCount)`. */
  function EduOptimal(pages: seq<Page>, frameCount: nat): (r: EduResult)
    requires frameCount >= 1
    ensures r.pageFaults <= |pages| && |r.finalMemory| <= frameCount && NoDups(r.finalMemory)
  {
    var st := OptRun(pages, frameCount, |pages|);
    EduResult(st.faults, st.memory)
  }

  // ---------------------------------------------------------------- clock

  /** A frame with its reference bit. */
  datatype Frame = Frame(page: Page, ref: bool)

  function PagesOf(m: seq<Frame>): (r: seq<Page>)
    ensures |r| == |m| && forall i :: 0 <= i < |m| ==> r[i] == m[i].page
  {
    seq<Page>(|m|, i requires 0 <= i < |m| => m[i].page)
  }

  function RefsOf(m: seq<Frame>): (r: seq<bool>)
    ensures |r| == |m| && forall i :: 0 <= i < |m| ==> r[i] == m[i].ref
  {
    seq(|m|, i requires 0 <= i < |m| => m[i].ref)
  }

  /** The search loop: the first frame holding `page`, or -1. */
  function FindFrame(m: seq<Frame>, page: Page, j: nat): (r: int)
    requires j <= |m|
    ensures r == -1 <==> forall k :: j <= k < |m| ==> m[k].page != page
    ensures r != -1 ==> j <= r < |m| && m[r].page == page && forall k :: j <= k < r ==> m[k].page != page
    decreases |m| - j
  {
    if j == |m| then -1
    else if m[j].page == page then j
    else FindFrame(m, page, j + 1)
  }

  /** The frames and hand after the replacement loop has cleared every set
      bit in its way. */
  datatype Swept = Swept(memory: seq<Frame>, pointer: nat)

  /** The `while (true)` loop up to its `break`: clear the bit under the hand
      and advance it, modulo the frame count, until the bit under the hand
      is clear. */
  function EduSweep(m: seq<Frame>, pointer: nat, frameCount: nat): (r: Swept)
    requires |m| == frameCount && pointer < frameCount
    ensures |r.memory| == |m| && PagesOf(r.memory) == PagesOf(m)
    ensures r.pointer < frameCount && !r.memory[r.pointer].ref
    decreases CountSet(RefsOf(m))
  {
    if !m[pointer].ref then Swept(m, pointer)
    else
      var cleared := m[pointer := m[pointer].(ref := false)];
      assert RefsOf(cleared) == RefsOf(m)[pointer := false];
      ClearOne(RefsOf(m), pointer);
      assert PagesOf(cleared) == PagesOf(m);
      EduSweep(cleared, (pointer + 1) % frameCount, frameCount)
  }

  datatype ClockState = ClockState(memory: seq<Frame>, pointer: nat, faults: nat)

  predicate ClockValid(frameCount: nat, st: ClockState) {
    && |st.memory| <= frameCount
    && NoDups(PagesOf(st.memory))
    && st.pointer < frameCount
  }

  /** One reference of `clockAlgorithm`. */
  function ClockStep(frameCount: nat, st: ClockState, page: Page): (r: ClockState)
    requires frameCount >= 1 && ClockValid(frameCount, st)
    ensures ClockValid(frameCount, r)
    ensures page in PagesOf(r.memory)
    ensures r.faults == st.faults + (if page in PagesOf(st.memory) then 0 else 1)
    ensures page in PagesOf(st.memory) ==> r.pointer == st.pointer && PagesOf(r.memory) == PagesOf(st.memory)
  {
    var found := FindFrame(st.memory, page, 0);
    assert found == -1 <==> page !in PagesOf(st.memory) by {
      if page in PagesOf(st.memory) {
        var k :| 0 <= k < |st.memory| && PagesOf(st.memory)[k] == page;
      }
    }
    if found != -1 then
      var m := st.memory[found := st.memory[found].(ref := true)];
      assert PagesOf(m) == PagesOf(st.memory);
      st.(memory := m)
    else if |st.memory| < frameCount then
      var m := st.memory + [Frame(page, true)];
      assert PagesOf(m) == PagesOf(st.memory) + [page];
      NoDupsSnoc(PagesOf(st.memory), page);
      st.(memory := m, faults := st.faults + 1)
    else
      var sw := EduSweep(st.memory, st.pointer, frameCount);
      var m := sw.memory[sw.pointer := Frame(page, true)];
      assert PagesOf(m) == PagesOf(sw.memory)[sw.pointer := page];
      ReplaceSlot(PagesOf(sw.memory), sw.pointer, page);
      ClockState(m, (sw.pointer + 1) % frameCount, st.faults + 1)
  }

  function ClockRun(pages: seq<Page>, frameCount: nat, n: nat): (st: ClockState)
    requires frameCount >= 1 && n <= |pages|
    ensures ClockValid(frameCount, st) && st.faults <= n
  {
    if n == 0 then ClockState([], 0, 0)
    else ClockStep(frameCount, ClockRun(pages, frameCount, n - 1), pages[n - 1])
  }

  /** Consecutive clock states: `t[k + 1]` is one reference on from `t[k]`. */
  predicate ClockLinked(pages: seq<Page>, frameCount: nat, t: seq<ClockState>, k: nat) {
    && k + 1 < |t| && k < |pages| && frameCount >= 1
    && ClockValid(frameCount, t[k])
    && t[k + 1] == ClockStep(frameCount, t[k], pages[k])
  }

  /** The clock state after every prefix. */
  function ClockTrace(pages: seq<Page>, frameCount: nat): (t: seq<ClockState>)
    requires frameCount >= 1
    ensures |t| == |pages| + 1
    ensures forall n :: 0 <= n <= |pages| ==> t[n] == ClockRun(pages, frameCount, n)
  {
    seq(|pages| + 1, n requires 0 <= n <= |pages| => ClockRun(pages, frameCount, n))
  }

  lemma ClockTraceLinked(pages: seq<Page>, frameCount: nat)
    requires frameCount >= 1
    ensures var t := ClockTrace(pages, frameCount);
            t[0] == ClockState([], 0, 0) && forall k :: 0 <= k < |pages| ==> ClockLinked(pages, frameCount, t, k)
  {
    var t := ClockTrace(pages, frameCount);
    forall k | 0 <= k < |pages|
      ensures ClockLinked(pages, frameCount, t, k)
    {
      assert t[k + 1] == ClockRun(pages, frameCount, k + 1);
    }
  }

  /** `clockAlgorithm(pages, frameCount)`. */
  function EduClock(pages: seq<Page>, frameCount: nat): (r: EduResult)
    requires frameCount >= 1
    ensures r.pageFaults <= |pages| && |r.finalMemory| <= frameCount && NoDups(r.finalMemory)
  {
    var st := ClockRun(pages, frameCount, |pages|);
    EduResult(st.faults, PagesOf(st.memory))
  }

  // ---------------------------------------------------------------- LFU

  /** A map entry: the page, its use count and the time of its last use. */
  datatype Entry = Entry(page: Page, count: nat, time: nat)

  function Keys(m: seq<Entry>): (r: seq<Page>)
    ensures |r| == |m| && forall i :: 0 <= i < |m| ==> r[i] == m[i].page
  {
    seq<Page>(|m|, i requires 0 <= i < |m| => m[i].page)
  }

  /** Entry `v` is the one with the smallest count, the oldest time among
      those, with strict order against every other entry. */
  predicate LeastUsed(m: seq<Entry>, v: nat) {
    && v < |m|
    && forall j :: 0 <= j < |m| && j != v ==>
         m[v].count < m[j].count || (m[v].count == m[j].count && m[v].time < m[j].time)
  }

  /** No two entries share a time stamp. */
  predicate DistinctTimes(m: seq<Entry>) {
    forall i, j :: 0 <= i < j < |m| ==> m[i].time != m[j].time
  }

  /** The victim loop over the map, in insertion order, seeded with infinite
      minima: take an entry with a smaller count, or an equal count and an
      older time. The source keeps the key; the model keeps its position. */
  function LfuScan(m: seq<Entry>, k: nat, minCount: ExtNat, oldestTime: ExtNat, toReplace: nat): (v: nat)
    requires 0 < |m| && k <= |m| && DistinctTimes(m)
    requires k == 0 ==> minCount == Infinity && oldestTime == Infinity && toReplace == 0
    requires k > 0 ==> toReplace < k && minCount == Fin(m[toReplace].count) && oldestTime == Fin(m[toReplace].time)
    requires forall j :: 0 <= j < k && j != toReplace ==>
               m[toReplace].count < m[j].count || (m[toReplace].count == m[j].count && m[toReplace].time < m[j].time)
    ensures LeastUsed(m, v)
    decreases |m| - k
  {
    if k == |m| then toReplace
    else
      var e := m[k];
      if Below(e.count, minCount) || (minCount == Fin(e.count) && Below(e.time, oldestTime)) then
        LfuScan(m, k + 1, Fin(e.count), Fin(e.time), k)
      else
        LfuScan(m, k + 1, minCount, oldestTime, toReplace)
  }

  /** Map position of `page`, or -1. */
  function FindEntry(m: seq<Entry>, page: Page): (r: int)
    ensures r == -1 <==> page !in Keys(m)
    ensures r != -1 ==> 0 <= r < |m| && m[r].page == page
  {
    IndexOf(Keys(m), page)
  }

  /** `Map.delete`: the entry at position `v` leaves, the rest keep their
      order. */
  function DeleteAt(m: seq<Entry>, v: nat): (r: seq<Entry>)
    requires v < |m|
    ensures |r| == |m| - 1
    ensures forall j :: 0 <= j < |r| ==> r[j] == if j < v then m[j] else m[j + 1]
  {
    m[..v] + m[v + 1..]
  }

  datatype LfuState = LfuState(entries: seq<Entry>, time: nat, faults: nat)

  /** Keys appear once, within the frames; counts start at one; time stamps
      are distinct, positive and no later than the clock. */
  predicate LfuValid(frameCount: nat, st: LfuState) {
    && NoDups(Keys(st.entries))
    && |st.entries| <= frameCount
    && DistinctTimes(st.entries)
    && forall j :: 0 <= j < |st.entries| ==>
         st.entries[j].count >= 1 && 1 <= st.entries[j].time <= st.time
  }

  /** Deleting an entry keeps the keys unique and the time stamps distinct,
      and every remaining entry was there before. */
  lemma DeleteKeepsValid(m: seq<Entry>, v: nat)
    requires v < |m| && NoDups(Keys(m)) && DistinctTimes(m)
    ensures NoDups(Keys(DeleteAt(m, v))) && DistinctTimes(DeleteAt(m, v))
    ensures forall j :: 0 <= j < |DeleteAt(m, v)| ==> DeleteAt(m, v)[j] in m
    ensures m[v].page !in Keys(DeleteAt(m, v))
  {
    var r := DeleteAt(m, v);
    forall i, j | 0 <= i < j < |r| ensures r[i].page != r[j].page && r[i].time != r[j].time {
      var i' := if i < v then i else i + 1;
      var j' := if j < v then j else j + 1;
      assert r[i] == m[i'] && r[j] == m[j'];
      assert Keys(m)[i'] == m[i'].page && Keys(m)[j'] == m[j'].page;
      Distinct(Keys(m), i', j');
    }
    forall i, j | 0 <= i < j < |Keys(r)| ensures Apart(Keys(r), i, j) {
      assert Keys(r)[i] == r[i].page && Keys(r)[j] == r[j].page;
    }
    forall j | 0 <= j < |r| ensures r[j] in m && r[j].page != m[v].page {
      var j' := if j < v then j else j + 1;
      assert r[j] == m[j'];
      Distinct(Keys(m), j', v);
    }
  }

  /** Appending a fresh page with count one at the current time keeps the
      map valid. */
  lemma AdmitKeepsValid(frameCount: nat, kept: seq<Entry>, page: Page, time: nat)
    requires time >= 1 && |kept| < frameCount && NoDups(Keys(kept)) && DistinctTimes(kept) && page !in Keys(kept)
    requires forall j :: 0 <= j < |kept| ==> kept[j].count >= 1 && 1 <= kept[j].time < time
    ensures LfuValid(frameCount, LfuState(kept + [Entry(page, 1, time)], time, 0))
  {
    var m := kept + [Entry(page, 1, time)];
    assert Keys(m) == Keys(kept) + [page];
    NoDupsSnoc(Keys(kept), page);
    forall j | 0 <= j < |m| ensures m[j].count >= 1 && 1 <= m[j].time <= time {
      if j < |kept| {
        assert m[j] == kept[j];
      }
    }
  }

  /** The map left for the new page: the least-used entry is gone when the
      map was full. */
  function Evict(frameCount: nat, st: LfuState): (kept: seq<Entry>)
    requires frameCount >= 1 && LfuValid(frameCount, st)
    ensures |kept| < frameCount && NoDups(Keys(kept)) && DistinctTimes(kept)
    ensures forall j :: 0 <= j < |kept| ==> kept[j] in st.entries
    ensures |st.entries| < frameCount ==> kept == st.entries
    ensures |st.entries| >= frameCount ==> exists v: nat :: LeastUsed(st.entries, v) && kept == DeleteAt(st.entries, v)
  {
    if |st.entries| >= frameCount then
      var v := LfuScan(st.entries, 0, Infinity, Infinity, 0);
      DeleteKeepsValid(st.entries, v);
      DeleteAt(st.entries, v)
    else st.entries
  }

  /** `memory.set` on a present key: the entry keeps its place and takes a
      new count and time stamp. */
  function Bump(m: seq<Entry>, k: nat, time: nat): (r: seq<Entry>)
    requires k < |m|
    ensures |r| == |m| && Keys(r) == Keys(m)
    ensures r[k] == Entry(m[k].page, m[k].count + 1, time)
    ensures forall j :: 0 <= j < |m| && j != k ==> r[j] == m[j]
  {
    var r := m[k := Entry(m[k].page, m[k].count + 1, time)];
    assert Keys(r) == Keys(m);
    r
  }

  /** The keys of a map with one entry set last. */
  lemma KeysSnoc(m: seq<Entry>, e: Entry)
    ensures Keys(m + [e]) == Keys(m) + [e.page]
  {
  }

  /** A hit refreshes the entry at the clock's new time, so the map stays
      valid. */
  lemma BumpKeepsValid(frameCount: nat, st: LfuState, k: nat)
    requires LfuValid(frameCount, st) && k < |st.entries|
    ensures LfuValid(frameCount, LfuState(Bump(st.entries, k, st.time + 1), st.time + 1, st.faults))
  {
    var r := Bump(st.entries, k, st.time + 1);
    forall i, j | 0 <= i < j < |r| ensures r[i].time != r[j].time {
      if i != k && j != k {
        assert r[i] == st.entries[i] && r[j] == st.entries[j];
      }
    }
  }

  /** A fault admits the page after the eviction, so the map stays valid. */
  lemma AdmitAfterEvict(frameCount: nat, st: LfuState, page: Page)
    requires frameCount >= 1 && LfuValid(frameCount, st) && page !in Keys(st.entries)
    ensures LfuValid(frameCount, LfuState(Evict(frameCount, st) + [Entry(page, 1, st.time + 1)], st.time + 1, st.faults + 1))
  {
    var kept := Evict(frameCount, st);
    assert page !in Keys(kept);
    assert forall j :: 0 <= j < |kept| ==> kept[j].count >= 1 && 1 <= kept[j].time < st.time + 1;
    AdmitKeepsValid(frameCount, kept, page, st.time + 1);
  }

  /** One reference of `lfuAlgorithm`: the clock ticks; a hit bumps the count
      and refreshes the time in place; a fault on a full map deletes the
      least-used entry; a new page enters last with count one. */
  function LfuStep(frameCount: nat, st: LfuState, page: Page): (r: LfuState)
    requires frameCount >= 1 && LfuValid(frameCount, st)
    ensures LfuValid(frameCount, r)
    ensures r.time == st.time + 1
    ensures page in Keys(r.entries)
    ensures r.faults == st.faults + (if page in Keys(st.entries) then 0 else 1)
    ensures page in Keys(st.entries) ==>
              var k := FindEntry(st.entries, page);
              && |r.entries| == |st.entries|
              && r.entries[k] == Entry(page, st.entries[k].count + 1, st.time + 1)
              && forall j :: 0 <= j < |st.entries| && j != k ==> r.entries[j] == st.entries[j]
    ensures page !in Keys(st.entries) ==>
              && 0 < |r.entries| && r.entries[|r.entries| - 1] == Entry(page, 1, st.time + 1)
              && r.entries[..|r.entries| - 1] == Evict(frameCount, st)
  {
    var k := FindEntry(st.entries, page);
    if k != -1 then
      BumpKeepsValid(frameCount, st, k);
      LfuState(Bump(st.entries, k, st.time + 1), st.time + 1, st.faults)
    else
      AdmitAfterEvict(frameCount, st, page);
      KeysSnoc(Evict(frameCount, st), Entry(page, 1, st.time + 1));
      var kept := Evict(frameCount, st);
      assert (kept + [Entry(page, 1, st.time + 1)])[..|kept|] == kept;
      LfuState(kept + [Entry(page, 1, st.time + 1)], st.time + 1, st.faults + 1)
  }

  function LfuRun(pages: seq<Page>, frameCount: nat, n: nat): (st: LfuState)
    requires frameCount >= 1 && n <= |pages|
    ensures LfuValid(frameCount, st) && st.faults <= n && st.time == n
  {
    if n == 0 then LfuState([], 0, 0)
    else LfuStep(frameCount, LfuRun(pages, frameCount, n - 1), pages[n - 1])
  }

  /** Consecutive LFU states: `t[k + 1]` is one reference on from `t[k]`. */
  predicate LfuLinked(pages: seq<Page>, frameCount: nat, t: seq<LfuState>, k: nat) {
    && k + 1 < |t| && k < |pages| && frameCount >= 1
    && LfuValid(frameCount, t[k])
    && t[k + 1] == LfuStep(frameCount, t[k], pages[k])
  }

  /** The LFU state after every prefix. */
  function LfuStates(pages: seq<Page>, frameCount: nat): (t: seq<LfuState>)
    requires frameCount >= 1
    ensures |t| == |pages| + 1
    ensures forall n :: 0 <= n <= |pages| ==> t[n] == LfuRun(pages, frameCount, n)
  {
    seq(|pages| + 1, n requires 0 <= n <= |pages| => LfuRun(pages, frameCount, n))
  }

  lemma LfuStatesLinked(pages: seq<Page>, frameCount: nat)
    requires frameCount >= 1
    ensures var t := LfuStates(pages, frameCount);
            t[0] == LfuState([], 0, 0) && forall k :: 0 <= k < |pages| ==> LfuLinked(pages, frameCount, t, k)
  {
    var t := LfuStates(pages, frameCount);
    forall k | 0 <= k < |pages|
      ensures LfuLinked(pages, frameCount, t, k)
    {
      assert t[k + 1] == LfuRun(pages, frameCount, k + 1);
    }
  }

  /** `lfuAlgorithm(pages, frameCount)`. */
  function EduLfu(pages: seq<Page>, frameCount: nat): (r: EduResult)
    requires frameCount >= 1
    ensures r.pageFaults <= |pages| && |r.finalMemory| <= frameCount && NoDups(r.finalMemory)
  {
    var st := LfuRun(pages, frameCount, |pages|);
    EduResult(st.faults, Keys(st.entries))
  }
}
