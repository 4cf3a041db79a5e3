# Page-replacement engine of the virtual-memory simulator

A Dafny model of the engine behind the virtual-memory simulator. The engine
takes a string of page references and a number of frames. It replays the
string under one of six replacement policies: FIFO, LRU, optimal, clock
(second chance), NFU and random. For every reference it records whether it
hit or faulted and which resident page was replaced. The model covers these
parts of the engine:

- **`Simulator`**: the batch simulator `simulateAlgorithm` with all six
  policies. The comparison table runs it once per policy.
- **`Live`**: the provider behind the animated view. It covers the per-step
  `simulateStep` with its TLB counter, the step history, reset, start and
  pause, the `stepSimulation` guard, the timer, and `runComparison`. The live
  step keeps its own replacement code. In that code the clock and NFU
  settings replace the oldest page, as FIFO does.
- **`Educational`**: the teaching panel's separate implementations of FIFO,
  LRU, optimal, clock and LFU, written with `Set` and `Map`.
- **`Validate`**: the panel's input check `validateInputs`, with JavaScript's
  `trim` and `split`.
- **`Utils`**: the helpers the panels call on the results: the working-set
  size, the efficiency percentage, and the description shown for a policy
  name.

The properties come in three kinds:

- **Agreement.** The teaching panel's FIFO, LRU, clock and optimal
  implementations match the batch simulator. They count the same faults
  and, where the structures allow it, end with the same memory. A live
  session stepped to the end matches the batch simulator's row for its
  emulated policy, except under random replacement: the comparison table
  draws its own random numbers, so its random row is a separate run.
- **Optimality.** `Belady` gives an independent reference definition: every
  fault count a demand-paging policy can reach from an empty memory. The
  batch simulator's optimal policy reaches the least such count. So it never
  faults more than any other policy of the simulator, or the teaching
  panel's LFU.
- **Per-policy rules and the default run.** Each policy's rule is stated and
  proved: what it evicts and how its bookkeeping evolves (NFU counters,
  clock bits, LFU counts and time stamps). `Scenario` shows
  what the default settings produce: reference string
  7,0,1,2,0,3,0,4,2,3,0,3,2,1,2,0,1,7,0,1 with 3 frames. FIFO takes 15
  faults and a 25% hit rate; the optimal policy takes 9 faults and 55%.

`Math.random()` becomes a parameter: one draw in [0, 1) per reference. The
same draws give the same run. The live steps and the comparison table take
separate draws, because the table calls the batch simulator afresh. JavaScript's `Number` test on a page field
becomes a predicate parameter of `Validate.ValidateInputs`.

Three behaviours of the code worth noting; the model follows the code:
- The working-set window is the half-open range of history positions
  `[currentStep - windowSize, currentStep)`.
- The batch NFU policy counts every reference to a page, including the one
  that faults it in. It keeps the count after the page is evicted. On equal
  counts it evicts the first slot, not the oldest page.
- The live view emulates FIFO for the clock and NFU settings. The comparison
  table does not re-run the live step; it runs the batch simulator.
- The teaching panel's LFU starts a page that comes back after eviction at a
  count of one, while the batch NFU keeps counting across evictions.

## Model

| member | source | states |
|---|---|---|
| `Pages.IndexFrom` | lib/algorithms/simulator.ts:56 | `indexOf(p, from)` is -1 exactly when `p` does not occur at or after `from`; otherwise it is the first position at or after `from` that holds `p` |
| `Pages.IndexOf` | lib/algorithms/simulator.ts:32 | `indexOf(p)` is -1 exactly when `p` is absent; otherwise it is the first position of `p` |
| `Pages.Without` | lib/algorithms/simulator.ts:28 | `filter(q => q !== p)` keeps exactly the other pages; it is one shorter when `p` was present in a duplicate-free list, and keeps the list duplicate-free |
| `Pages.SetAdd` | components/simulation/educational-panel.tsx:41 | `Set.add` adds the page to the set's elements, keeps them distinct, and grows by one only for a new page |
| `Pages.SpliceOne` | components/simulation/educational-panel.tsx:80 | `splice(k, 1)` removes the element at `k`, counting a negative `k` from the end |
| `Pages.RandomIndex` | lib/algorithms/simulator.ts:79 | `Math.floor(Math.random() * n)` is a valid slot index whenever there is a slot |
| `Simulator.Init` | lib/algorithms/simulator.ts:4-13 | the initial state is well formed for any frame count of at least 1: at most that many distinct pages, one reference bit per frame, the hand on a frame |
| `Simulator.InitIsEmpty` | lib/algorithms/simulator.ts:4-13 | the loop starts with no page resident, no fault or hit counted, every reference bit clear and no NFU counter |
| `Simulator.ClockSweep` | lib/algorithms/simulator.ts:69-73 | the sweep keeps one bit per frame and leaves the hand on a frame; `SweepClearsPassedBits` states where it stops |
| `Simulator.SweepClearsPassedBits` | lib/algorithms/simulator.ts:69-73 | the clock hand stops at the first clear bit from its start, within one turn; it clears exactly the bits it passes and leaves every other bit alone |
| `Simulator.NextIsMod` | lib/algorithms/simulator.ts:72 | advancing the hand by `(p + 1) % frameCount` moves it to the next slot, wrapping to 0 |
| `Simulator.OptimalScan` | lib/algorithms/simulator.ts:54-65 | the loop over the frames returns a slot index; `OptimalScanIsScanNexts` and `ScanNextsChooses` state which |
| `Simulator.OptimalScanIsScanNexts` | lib/algorithms/simulator.ts:51-65 | the optimal loop over the frames depends only on each resident page's next request position |
| `Simulator.ScanNextsChooses` | lib/algorithms/simulator.ts:51-65 | the scan returns the first page never requested again, or else the first page whose next request is the farthest |
| `Simulator.OptimalVictim` | lib/algorithms/simulator.ts:51-65 | the victim is a slot of the memory; `OptimalVictimChoice` states which |
| `Simulator.OptimalVictimChoice` | lib/algorithms/simulator.ts:50-67 | the optimal victim is the first resident page never requested again, or, when every page is requested again, the first page with the farthest next request |
| `Simulator.MinScan` | lib/algorithms/simulator.ts:83-92 | the NFU loop returns a slot of the memory; `MinScanChooses` states which |
| `Simulator.MinScanChooses` | lib/algorithms/simulator.ts:81-94 | the NFU victim has the least counter, and every earlier slot has a strictly larger counter |
| `Simulator.Step` | lib/algorithms/simulator.ts:15-97 | one reference keeps the state well formed (at most `frameCount` distinct pages, one bit per frame, the hand in range); it increments exactly one of hits and faults, according to whether the page was resident; the page is resident afterwards and no other page arrives |
| `Simulator.Run` | lib/algorithms/simulator.ts:15-98 | after `n` references the state is well formed, hits and faults add up to `n`, and every resident page was requested |
| `Simulator.SimulateAlgorithm` | lib/algorithms/simulator.ts:3-101 | faults and hits add up to the number of references; an empty string gives zero of both |
| `SimulatorRules.EvictHeadAppend` | lib/algorithms/simulator.ts:44-49 | on a fault with full memory FIFO and LRU drop the first page and append the new one |
| `SimulatorRules.LruHitMovesToTail` | lib/algorithms/simulator.ts:26-29 | an LRU hit moves the page from its slot to the end and keeps the other pages in order |
| `SimulatorRules.LruKeepsMostRecent` | lib/algorithms/simulator.ts:23-49 | after any prefix, LRU memory holds the `frameCount` most recently used distinct pages, least recent first |
| `SimulatorRules.OptimalOverwritesVictim` | lib/algorithms/simulator.ts:50-67 | on a fault with full memory the optimal policy writes the new page into the victim's slot, the first never-requested or first farthest page |
| `SimulatorRules.ClockHitSetsBit` | lib/algorithms/simulator.ts:30-34 | a clock hit sets the page's bit and changes nothing else |
| `SimulatorRules.ClockAdmitSetsBit` | lib/algorithms/simulator.ts:38-42 | a clock fault with a free frame appends the page and sets the bit of its slot; the hand stays |
| `SimulatorRules.ClockReplace` | lib/algorithms/simulator.ts:68-77 | a clock fault with full memory replaces the page at the first clear bit from the hand and sets that bit; it clears the bits passed over, keeps the others, and leaves the hand one slot beyond the replaced slot |
| `SimulatorRules.NfuCountsReference` | lib/algorithms/simulator.ts:19-21 | every NFU iteration adds one to the referenced page's counter, hit or fault, and leaves the other counters alone |
| `SimulatorRules.NfuCountsEveryReference` | lib/algorithms/simulator.ts:18-21 | after any prefix each page's NFU counter equals its number of occurrences in that prefix, evicted or not |
| `SimulatorRules.NfuReplacesLeastCounted` | lib/algorithms/simulator.ts:81-94 | an NFU fault with full memory first counts the new reference, then replaces the first slot holding the least counter |
| `SimulatorRules.RandomReplacesSomeSlot` | lib/algorithms/simulator.ts:78-80 | a random fault with full memory writes the page into one slot, keeping memory full and duplicate-free |
| `SimulatorRules.StepIgnoresDraw` | lib/algorithms/simulator.ts:78-80 | one iteration of any policy but random is the same whatever `Math.random()` returns |
| `SimulatorRules.RunIgnoresDraws` | lib/algorithms/simulator.ts:15-98 | two runs of any policy but random agree whatever each draws |
| `SimulatorRules.CompulsoryFaults` | lib/algorithms/simulator.ts:23-36 | every policy faults at least once per distinct page requested |
| `Optimality.VictimIsFarthest` | lib/algorithms/simulator.ts:51-65 | no resident page is requested again later than the optimal victim |
| `Optimality.StepEvicts` | lib/algorithms/simulator.ts:43-95 | every policy's eviction removes exactly one resident page and adds the requested one |
| `Optimality.StepMoves` | lib/algorithms/simulator.ts:23-97 | every policy step is a demand-paging move: a hit changes nothing, a fault adds the page, evicting one page only when memory is full |
| `Optimality.RunIsDemandPaging` | lib/algorithms/simulator.ts:15-98 | the fault count of every policy is one that demand paging can reach |
| `Optimality.OptimalIsLeast` | lib/algorithms/simulator.ts:50-67 | the optimal policy's fault count is reachable by demand paging, and is no more than any other reachable count |
| `Optimality.OptimalNeverWorse` | lib/algorithms/simulator.ts:50-67 | the optimal policy never faults more than any policy of the simulator, whatever the random draws |
| `Educational.FifoStep` | components/simulation/educational-panel.tsx:27-47 | keeps the set and the queue holding the same distinct pages within the frame count; counts a fault exactly for an absent page; on a full memory the queue's head leaves |
| `Educational.FifoStepKeepsOrder` | components/simulation/educational-panel.tsx:33-42 | when the set's insertion order equals the queue, it still does after the step |
| `Educational.FifoRun` | components/simulation/educational-panel.tsx:27-47 | after any prefix the queue and set hold the same distinct pages within the frame count, with at most one fault per reference |
| `Educational.EduFifo` | components/simulation/educational-panel.tsx:21-54 | at most one fault per reference; the final memory is duplicate-free and within the frame count |
| `Educational.LruStep` | components/simulation/educational-panel.tsx:62-86 | keeps the set and the usage list holding the same distinct pages; the page ends the usage list; a hit leaves the set alone; a fault is counted exactly for an absent page |
| `Educational.Touch` | components/simulation/educational-panel.tsx:80-81 | the `splice`/`push` pair moves the page to the end of the usage list and keeps the other pages in order |
| `Educational.LruRun` | components/simulation/educational-panel.tsx:62-86 | after any prefix the set and usage list hold the same distinct pages within the frame count, with at most one fault per reference |
| `Educational.EduLru` | components/simulation/educational-panel.tsx:56-93 | at most one fault per reference; the final memory is duplicate-free and within the frame count |
| `Educational.ScanAhead` | components/simulation/educational-panel.tsx:112-114 | the inner loop stops at the first later request of the page, or at the end of the string |
| `Educational.EduOptimalScan` | components/simulation/educational-panel.tsx:107-123 | the chosen page has the latest next request (the end of the string counting as latest), and every earlier page in set order has a strictly earlier one |
| `Educational.OptStep` | components/simulation/educational-panel.tsx:100-136 | a hit changes nothing; a fault with room appends the page; a fault on a full set deletes the scan's victim and appends the new page last; the fault count grows exactly on an absent page |
| `Educational.OptRun` | components/simulation/educational-panel.tsx:100-136 | after any prefix the set is duplicate-free within the frame count, with at most one fault per reference |
| `Educational.EduOptimal` | components/simulation/educational-panel.tsx:95-143 | at most one fault per reference; the final memory is duplicate-free and within the frame count |
| `Educational.FindFrame` | components/simulation/educational-panel.tsx:156-162 | the search loop finds the first frame holding the page, or reports none exactly when no frame holds it |
| `Educational.EduSweep` | components/simulation/educational-panel.tsx:175-186 | the sweep keeps the pages and stops the pointer at a frame whose bit is clear |
| `Educational.ClockStep` | components/simulation/educational-panel.tsx:151-193 | keeps the frames distinct and the pointer in range; the page is resident afterwards; a fault is counted exactly for an absent page; a hit leaves the pages and the pointer alone |
| `Educational.ClockRun` | components/simulation/educational-panel.tsx:151-193 | after any prefix the frames hold distinct pages within the frame count with the pointer in range, with at most one fault per reference |
| `Educational.EduClock` | components/simulation/educational-panel.tsx:145-200 | at most one fault per reference; the final memory is duplicate-free and within the frame count |
| `Educational.LfuScan` | components/simulation/educational-panel.tsx:221-231 | the loop over the map picks the entry with the least count, the oldest time breaking ties |
| `Educational.FindEntry` | components/simulation/educational-panel.tsx:212-213 | `memory.has`/`get` find the entry of a page exactly when the page is a key |
| `Educational.Evict` | components/simulation/educational-panel.tsx:220-234 | with a full map exactly one least-used entry is deleted; otherwise nothing is |
| `Educational.LfuStep` | components/simulation/educational-panel.tsx:208-240 | the clock advances by one; a hit adds one to the page's count and stamps it with the new time in place, leaving every other entry alone; a fault appends the page last with count 1 and the new time after the eviction; a fault is counted exactly for a missing key; keys stay distinct within the frame count, every count at least 1 and every time stamp distinct |
| `Educational.LfuRun` | components/simulation/educational-panel.tsx:208-240 | after any prefix the map is valid, its clock equals the number of references, and it has at most one fault per reference |
| `Educational.EduLfu` | components/simulation/educational-panel.tsx:202-251 | at most one fault per reference; the final keys are duplicate-free and within the frame count |
| `EducationalRules.FifoStepMatches` | components/simulation/educational-panel.tsx:27-47 | a teaching-panel FIFO step and a simulator FIFO step, from agreeing states, reach agreeing states |
| `EducationalRules.EduFifoIsSimulatorFifo` | components/simulation/educational-panel.tsx:21-54 | the panel's FIFO has the simulator's fault count and final memory, in order |
| `EducationalRules.LruStepMatches` | components/simulation/educational-panel.tsx:62-86 | a panel LRU step keeps its usage list equal to the simulator's memory order, with the same resident set and faults |
| `EducationalRules.EduLruIsSimulatorLru` | components/simulation/educational-panel.tsx:56-93 | the panel's LRU has the simulator's fault count and the same final resident set |
| `EducationalRules.FindFrameIsIndexOf` | components/simulation/educational-panel.tsx:156-162 | the panel's frame search is `indexOf` on the frame pages |
| `EducationalRules.SweepMatches` | components/simulation/educational-panel.tsx:175-186 | the panel's clock sweep leaves the same bits and pointer as the simulator's |
| `EducationalRules.ClockHitMatches` | components/simulation/educational-panel.tsx:164-166 | a panel clock hit and a simulator clock hit keep agreeing pages, bits, pointer and faults |
| `EducationalRules.ClockAdmitMatches` | components/simulation/educational-panel.tsx:171-173 | loading into an empty frame agrees between the panel and the simulator |
| `EducationalRules.ClockReplaceMatches` | components/simulation/educational-panel.tsx:174-187 | replacement after a sweep agrees between the panel and the simulator |
| `EducationalRules.ClockStepMatches` | components/simulation/educational-panel.tsx:151-193 | one panel clock step agrees with one simulator clock step |
| `EducationalRules.EduClockIsSimulatorClock` | components/simulation/educational-panel.tsx:145-200 | the panel's clock has the simulator's fault count and final memory, in order |
| `EducationalRules.ScanAheadIsIndexFrom` | components/simulation/educational-panel.tsx:112-114 | the panel's forward scan is `indexOf(p, i + 1)` with "not found" mapped to the string's length |
| `EducationalRules.EduVictimIsSimulatorVictim` | components/simulation/educational-panel.tsx:107-123 | the panel's optimal victim is the same slot as the simulator's |
| `EducationalRules.EduVictimIsFarthest` | components/simulation/educational-panel.tsx:107-123 | no resident page is requested again later than the panel's victim |
| `EducationalRules.EduOptAchievable` | components/simulation/educational-panel.tsx:95-143 | the panel's optimal fault count is reachable by demand paging |
| `EducationalRules.EduOptimalIsSimulatorOptimal` | components/simulation/educational-panel.tsx:95-143 | the panel's optimal and the simulator's optimal count the same faults |
| `EducationalRules.OptimalTieBreaksDiffer` | components/simulation/educational-panel.tsx:125-131 | the two optimal implementations agree on faults for 1,2,3,4 with 2 frames, yet end with different memories: the panel moves the new page to the end of the set, the simulator writes it into the victim's slot |
| `EducationalRules.EvictDropsOneKey` | components/simulation/educational-panel.tsx:220-234 | a full LFU map loses exactly one resident key |
| `EducationalRules.LfuMoves` | components/simulation/educational-panel.tsx:208-240 | each LFU step is a demand-paging move |
| `EducationalRules.LfuIsDemandPaging` | components/simulation/educational-panel.tsx:202-251 | the LFU fault count is reachable by demand paging |
| `EducationalRules.OptimalBeatsLfu` | components/simulation/educational-panel.tsx:202-251 | the simulator's optimal policy never faults more than the panel's LFU |
| `EducationalRules.LeastUsedUnique` | components/simulation/educational-panel.tsx:225-231 | the least-used entry is unique |
| `EducationalRules.LfuHitCounts` | components/simulation/educational-panel.tsx:212-214 | a hit keeps every count equal to its page's requests since admission |
| `EducationalRules.LfuFaultCounts` | components/simulation/educational-panel.tsx:216-239 | a fault admits its page at count 1 and keeps the remaining counts equal to their requests since admission |
| `EducationalRules.LfuCountsSinceAdmission` | components/simulation/educational-panel.tsx:212-239 | after any prefix, every entry's count is the number of requests of its page since the reference that last found it absent and admitted it |
| `EducationalRules.LfuTimesAreLastUses` | components/simulation/educational-panel.tsx:210-239 | after any prefix, every entry's time stamp is one past the position of that page's latest request |
| `EducationalRules.EvictLeastRecent` | components/simulation/educational-panel.tsx:220-233 | the evicted entry has the least count; among equal counts its page was requested least recently |
| `Live.Emulated` | context/memory-context.tsx:193-212 | the clock and NFU settings run FIFO, and FIFO, LRU, optimal and random run as themselves |
| `Live.Reset` | context/memory-context.tsx:90-100 | reset stops the session, clears the step, frames and history, and keeps the comparison table |
| `Live.Start` | context/memory-context.tsx:102-105 | start resets and then runs |
| `Live.Pause` | context/memory-context.tsx:107-109 | pause stops the timer and changes nothing else |
| `Live.RecentPages` | context/memory-context.tsx:130 | `history.slice(-tlbSize)` gives the pages of the last `tlbSize` steps, or of all steps when there are fewer or the size is 0 |
| `Live.Place` | context/memory-context.tsx:139-214 | the requested page is resident afterwards; a hit keeps the resident set; a fault with room adds the page; a fault on full memory replaces one resident page, which is reported as replaced |
| `Live.SimulateStep` | context/memory-context.tsx:120-229 | one step advances the step counter, counts a fault or a hit by residency, and counts a TLB hit exactly when the page is among the recent pages; it appends one history row carrying the step, page, frames, fault flag and TLB flag, with a replaced page exactly on a fault with full memory |
| `Live.Play` | context/memory-context.tsx:120-229 | `n` steps advance the step counter by `n` and leave the running, complete and table fields alone |
| `Live.Name` | context/memory-context.tsx:253 | the table's column name has the tag's length, no lower-case letter, and lower-cases back to the tag |
| `Live.HitPercent` | context/memory-context.tsx:256 | the hit percentage is undefined exactly for an empty string, and lies between 0 and 100 otherwise |
| `Live.RunComparison` | context/memory-context.tsx:246-261 | six rows in the order FIFO, LRU, OPTIMAL, CLOCK, NFU, RANDOM; each row carries its policy's batch faults and hits and their hit percentage; the optimal row has the fewest faults |
| `Live.Complete` | context/memory-context.tsx:84-88 | completion stops the session and runs the comparison only on the first completion; nothing else changes |
| `Live.Loaded` | context/memory-context.tsx:84-88 | once the page has loaded, the session is complete at step zero with no frames or history, and the table holds the comparison of the parsed string |
| `Live.StepSimulation` | context/memory-context.tsx:111-118 | a manual step serves the next reference while one is left, and completes the session otherwise |
| `Live.Tick` | context/memory-context.tsx:231-244 | the timer serves the next reference while running; it completes the session once the string is exhausted, and does nothing otherwise |
| `LiveRules.ResetIsConsistent` | context/memory-context.tsx:90-105 | reset and start produce sessions that satisfy the invariant, and resetting twice is resetting once |
| `LiveRules.StepKeepsConsistent` | context/memory-context.tsx:120-229 | one step preserves the invariant: the history rows follow the string, the counters count the history's rows, and the frames are the last row's frames |
| `LiveRules.PlayKeepsConsistent` | context/memory-context.tsx:120-229 | any number of steps preserves the invariant |
| `LiveRules.PauseHoldsSession` | context/memory-context.tsx:107-109 | a paused session keeps the invariant, and the timer leaves it unchanged while references remain |
| `LiveRules.RecentPagesAreWindow` | context/memory-context.tsx:130 | in a consistent session the TLB's recent pages are the slice of the string just before the current step |
| `LiveRules.TlbHitIsRecentReference` | context/memory-context.tsx:128-137 | a TLB hit is recorded exactly when the page was requested within the last `tlbSize` steps |
| `LiveRules.TlbOffCountsNothing` | context/memory-context.tsx:128-137 | with the TLB off no TLB hit or miss is counted |
| `LiveRules.PlaceMatchesStep` | context/memory-context.tsx:139-214 | the live placement equals the simulator's step under the emulated policy |
| `LiveRules.LiveMatchesSimulator` | context/memory-context.tsx:120-229 | after `n` live steps from a reset session, the frames and counters equal the simulator's after `n` references |
| `LiveRules.CompletedRunMatchesTable` | context/memory-context.tsx:246-261 | a session stepped to the end and completed, with the table drawing its own random numbers, shows its own faults and hits in the row of its emulated policy unless that policy is random; the optimal row faults no more than the live run under any draws |
| `LiveRules.FinishShowsRun` | context/memory-context.tsx:111-118 | the completing step fills the table so that a finished non-random run reappears in its policy's row and no run beats the optimal row |
| `LiveRules.TableRow` | context/memory-context.tsx:246-261 | each policy's row equals that policy's batch run under the table's draws, and the optimal row faults no more |
| `LiveRules.RandomRowIsSeparateRun` | context/memory-context.tsx:200-204 | on 1, 2, 3, 1 with two frames a random run faults three times when the third draw picks slot 1 and four times when it picks slot 0, and draws of one half and zero pick those slots, so the live and table random runs can differ |
| `LiveRules.TimerServesReferences` | context/memory-context.tsx:231-244 | a started session's timer serves the references exactly as manual stepping does |
| `LiveRules.TimerRunsToCompletion` | context/memory-context.tsx:231-244 | one tick after the last reference completes the session with the comparison table filled from the table's own draws |
| `LiveRules.LoadedWaits` | context/memory-context.tsx:231-244 | the loaded page is a consistent session that the timer leaves unchanged |
| `LiveRules.StepAsFifo` | context/memory-context.tsx:193-211 | one live step under the clock or NFU setting yields exactly the session the FIFO setting yields |
| `LiveRules.PlayAsFifo` | context/memory-context.tsx:193-211 | any number of live steps under clock or NFU yields exactly FIFO's session: frames, counters and history |
| `LiveRules.SettingsChangeKeepsConsistent` | components/simulation/simulation-panel.tsx:47-88 | changing the algorithm or the TLB size, raising the frame count, or replacing the string by one that agrees on the steps served keeps the invariant |
| `LiveRules.FramesNeverShrink` | context/memory-context.tsx:158-212 | a step never shrinks duplicate-free frames, and keeps their number once it reaches the frame count, so frames above a lowered count stay until reset |
| `Scenario.DefaultSimulation` | context/memory-context.tsx:62-63 | on the default string with 3 frames the simulator gives FIFO 15 faults and 5 hits, and the optimal policy 9 faults and 11 hits |
| `Scenario.DefaultWalkthrough` | components/simulation/educational-panel.tsx:16-17 | the panel's FIFO and optimal walkthroughs of its default input count 15 and 9 faults |
| `Scenario.ComparisonReports` | context/memory-context.tsx:250-257 | the table's FIFO and optimal rows report those runs' faults and hit percentages |
| `Scenario.DefaultComparison` | context/memory-context.tsx:246-261 | the default run's table shows FIFO with 15 faults at 25% and the optimal policy with 9 faults at 55% |
| `Scenario.DefaultHitRates` | context/memory-context.tsx:256 | 5 hits of 20 is 25% and 11 hits of 20 is 55% |
| `Utils.Slice` | lib/utils.ts:12 | `slice` with in-range bounds is the ordinary subsequence, and never longer than the input |
| `Utils.SlicePages` | lib/utils.ts:12-15 | the pages of a sliced history are the pages at the history positions inside the bounds |
| `Utils.WorkingSet` | lib/utils.ts:10-16 | a window of size 0 or less gives 0; `WorkingSetIsWindow` states what it counts otherwise |
| `Utils.WorkingSetIsWindow` | lib/utils.ts:10-16 | the working-set size counts the distinct pages at history positions `[currentStep - windowSize, currentStep)` |
| `Utils.WorkingSetBounds` | lib/utils.ts:10-16 | the working-set size is at most the current step and at most a non-negative window; a window of size 0 or less gives 0 |
| `Utils.WorkingSetNonEmpty` | lib/utils.ts:10-16 | a positive window with at least one step taken sees at least one page |
| `Utils.WorkingSetMonotone` | lib/utils.ts:10-16 | a wider window never sees fewer pages |
| `Utils.WorkingSetLocal` | lib/utils.ts:10-16 | the size depends only on the history rows inside the window |
| `Utils.Efficiency` | lib/utils.ts:22-25 | 0 for no references; otherwise the value times the total is 100 times the hits; between 0 and 100 when hits do not exceed the total |
| `Utils.EfficiencyIsHitPercent` | lib/utils.ts:22-25 | efficiency agrees with the comparison table's hit percentage |
| `Utils.EfficiencyMonotone` | lib/utils.ts:22-25 | more hits never give a lower efficiency |
| `Utils.OptimalMostEfficient` | lib/utils.ts:22-25 | the optimal policy's efficiency is at least every other policy's |
| `Utils.KeyPolicy` | lib/utils.ts:28-37 | a key names a policy exactly when it equals that policy's tag |
| `Utils.Describe` | lib/utils.ts:27-40 | carries no contract of its own, because its texts are long literals; `DescribeKnown` and `DescribeFallback` state its result |
| `Utils.DescribeKnown` | lib/utils.ts:27-39 | a name whose lower case is a policy tag gets that policy's description |
| `Utils.DescribeFallback` | lib/utils.ts:39 | a name whose lower case is no tag gets "No description available." |
| `Utils.DescribeIgnoresCase` | lib/utils.ts:39 | names equal up to ASCII case get the same description |
| `Utils.DescribeColumnHeader` | lib/utils.ts:39 | the comparison table's upper-case column names get their policy's description |
| `Utils.DescribeAsWritten` | lib/utils.ts:39 | the lookup as written returns an inherited object member exactly for the lower-case names `constructor` and `__proto__` |
| `Utils.AsWrittenLeaksConstructor` | lib/utils.ts:39 | "Constructor" yields the inherited constructor as written, and the fallback text in the corrected lookup |
| `Utils.AsWrittenAgrees` | lib/utils.ts:39 | for every other name the lookup as written returns the corrected lookup's text |
| `Validate.LeadingSpace` | components/simulation/educational-panel.tsx:254 | the blank prefix `trim` removes ends at the first non-blank character |
| `Validate.TrailingSpace` | components/simulation/educational-panel.tsx:254 | the blank suffix `trim` removes starts after the last non-blank character |
| `Validate.Trim` | components/simulation/educational-panel.tsx:254 | carries no contract of its own; `TrimShape`, `TrimEmpty` and `TrimIdempotent` state its result |
| `Validate.TrimShape` | components/simulation/educational-panel.tsx:254 | `trim` returns a slice with only blanks cut from both sides, and a non-empty result starts and ends with a non-blank |
| `Validate.TrimEmpty` | components/simulation/educational-panel.tsx:254 | `trim` returns the empty string exactly for an all-blank string |
| `Validate.TrimIdempotent` | components/simulation/educational-panel.tsx:254-259 | trimming twice is trimming once |
| `Validate.Split` | components/simulation/educational-panel.tsx:259 | `split(',')` yields at least one field and no field contains the separator |
| `Validate.JoinSplit` | components/simulation/educational-panel.tsx:259 | joining the fields with the separator gives back the string |
| `Validate.SplitJoin` | components/simulation/educational-panel.tsx:259 | splitting a join of separator-free fields gives back the fields |
| `Validate.Fields` | components/simulation/educational-panel.tsx:259-260 | one checked field per piece of the trimmed sequence's split; `FieldsRejoin` states their contents |
| `Validate.FrameCountRejected` | components/simulation/educational-panel.tsx:265 | carries no contract of its own; `FrameCountChecked` states when it holds |
| `Validate.FieldsRejoin` | components/simulation/educational-panel.tsx:259-260 | the checked fields are the comma-separated pieces of the trimmed sequence |
| `Validate.ValidateInputs` | components/simulation/educational-panel.tsx:253-272 | a rejection carries one of the three messages |
| `Validate.AcceptedIff` | components/simulation/educational-panel.tsx:253-272 | the input is accepted exactly when the sequence is not blank, every field is a number, and the frame count is a finite number from 1 to 10 |
| `Validate.BlankRejected` | components/simulation/educational-panel.tsx:254-257 | a blank sequence is rejected with the empty-sequence message, whatever the frame count |
| `Validate.BadFieldRejected` | components/simulation/educational-panel.tsx:259-263 | a non-blank sequence with a non-numeric field is rejected with the numbers message |
| `Validate.FrameCountChecked` | components/simulation/educational-panel.tsx:265-268 | once the sequence passes, the frame-count message appears exactly when the count is not a finite number from 1 to 10 |

## Left out

- Rendering, styling, the charts and tables, and the teaching panel's `steps` text and terminal output are not modelled; only the counts and memories are.
- React state, hooks and effect scheduling: each state setter of one callback is applied at once, as one function from session to session.
- `setTimeout` and the playback speed: the timer is modelled as a sequence of ticks, one per elapsed delay.
- `Math.random()` is a parameter: the model takes its draws as a sequence of reals in [0, 1).
- Parsing the reference string with `split` and `parseInt` (context/memory-context.tsx:81) is not modelled. A configuration carries the parsed pages as natural numbers, so `NaN` and negative pages are not represented.
- Floating-point division and `toFixed(2)` are modelled as exact real arithmetic; the rounding to two decimals and the string form are left out.
- JavaScript's `Number` coercion inside `validateInputs` is a predicate parameter. Its rules, such as the empty field counting as 0, are not modelled.
- `Validate.ValidateInputs` models the frame count as a number that is finite or one of NaN and the infinities. A fractional frame count that passes the check would make the walkthroughs evict on the first whole number above it; the walkthrough models take whole frame counts.
- `Utils.Describe`: models `toLowerCase` on ASCII letters only, because the key comparison only matters for the six ASCII tags; non-ASCII characters that lower-case into ASCII letters (such as the Kelvin sign) are not modelled.
- `Utils.DescribeFallback`: states the fallback one way only, for names that are no tag. The six description texts are not compared with the fallback by the proof.
- `generateRandomReferenceString`, `cn` and `formatPercentage` in lib/utils.ts, and the provider's `generateRandomString`, are not modelled: they produce random input or presentation strings.
- The teaching panel's `runCode` dispatcher and its delay are not modelled; the five algorithms are modelled directly.
- A frame count below 1 is excluded by the models' requires: the inputs' `min` and `validateInputs` keep it at 1 or more. With 0 frames the batch simulator's `% frameCount` would give `NaN` as the clock hand, which the model does not represent.
- Settings changed mid-session are modelled only through `LiveRules.SettingsChangeKeepsConsistent` and `LiveRules.FramesNeverShrink`. A lowered frame count leaves the session with more frames than the count, so the invariant's frame bound no longer holds, and a reference string that disagrees with the steps already served breaks the history's agreement with the string; the model makes no promise about such sessions.
- `stepSimulation` lists only `currentStep` and the string's length as dependencies (context/memory-context.tsx:118). After a settings change a manual step can still run the previous `simulateStep` closure, with the previous settings, until the step counter moves. The model applies the current settings at every step.

## Findings

| source | as written | input that shows it | evidently intended | confidence | as-written member | corrected member |
|---|---|---|---|---|---|---|
| lib/utils.ts:39 | `descriptions[algorithm.toLowerCase()]` indexes a plain object, so the two lower-case members every object inherits are found and, being truthy, returned instead of the fallback | `getAlgorithmDescription("Constructor")` returns the `Object` constructor function, not a string | every name that is not one of the six policies gets "No description available." | medium, not executed | `Utils.AsWrittenLeaksConstructor` | `Utils.DescribeFallback` |
