# Models and proofs for the simulator's tooling

This project models the algorithmic parts of the tooling around an ns-3.36 flooding simulator and proves what
they promise.

| Modules | Source | Subject |
|---|---|---|
| `Basics`, `Sequences` | | definitions shared by several modules |
| `DepGraph`, `TopSort`, `SortOrder` | `bindings/python/topsort.py` | Kahn's algorithm over in-place counters, the order of its answer, and the same graph peeled level by level |
| `Rotations`, `FindCycles` | `bindings/python/topsort.py`, `rad_util.py` | enumeration of all simple cycles up to rotation, with an explicit stack |
| `TestScheduler`, `TestOrder`, `TestSummary` | `test.py` | worker threads, queues, break tokens, interrupt; the order of jobs and results; the tally and the return value |
| `AgeSeries`, `AgeInterpolation`, `AgeHistogram`, `AgeSections`, `AgeSectionEnds` | `analysis_scripts/parse_results_v3.py`, `parse_results_rdf.py` | the age-of-information sawtooth, its peaks, average, interpolation, histogram and sections |
| `TypeGather`, `TypeEdges`, `TypeDuplicates` | `utils/print-introspected-doxygen.cc` | the backtracking walk of the type graph, what the graph is in terms of the registry, and when something is recorded twice |
| `UnifiedDiff`, `DiffReading`, `DiffRoundTrip`, `DiffHeaders` | `utils/check-style.py` | the diff printer and parser on values, when the parser raises and what it reads, their round trip, and the headers |
| `PatchObjects`, `TrailingWhitespace`, `PatchRewriting`, `RewriteRoundTrip` | `utils/check-style.py` | the parser and the line rewriter over linked and aliased objects, and whether what they leave can be read back |
| `BinaryStrings`, `Permutations` | `bindings/python/rad_util.py` | ripple-carry counter, hex-table converter, Gray code, permutations |

How to read it:

- Iteration over a Python dictionary is a method (`TopSort.KeysInSomeOrder`) that promises nothing about the order,
  so every result holds for every order. Graph nodes are of an abstract type with equality.
- A depth is the length of the longest walk that ends in a node; "behind a cycle" means on a cycle or reachable from one.
- The scheduler is a step relation. A run is any sequence of enabled steps of the main thread, of the workers and of the
  interrupt handler; a job's return code is a parameter of the job, arbitrary but fixed.
- Times, ages and distances are real numbers.
- Some results are stated as "if and only if": where the code meets a property on some inputs only, the exact condition
  is part of the theorem, and a failing input is given.

| Property | exact condition | fails for |
|---|---|---|
| interpolation keeps the area | `InterpolationArea` | `InterpolationLosesArea` |
| peaks are the ages that news ended | `LocalMaximaOfSawtoothIff` | `PeakLostAtTie` |
| the greatest age is among the peaks | `GreatestAgeIsPeakIff` | `GreatestAgeLost` |
| filtered and unfiltered age series agree | `SameAsUnfilteredIff` | `StaleReceptionDiffers` |
| the histogram loses no hits of a series | `LastStepLost` | `LastClimbLost` |
| a section cut from a series as it is begins and ends at its times | `SectionEndsIff` | `SectionBeginsLate` |
| Gather records nothing twice | `GatherNoDuplicatesIff` | `NodeRecordsTwice` |
| a header of the diff format is read | `HeaderReadIff` | `OneLineFile` |
| a printed patchset is read back | `RoundTripIff` | `RewriteBreaksRoundTrip` |
| a rewritten patchset is read back | `RewrittenReadsBackIff` | `RewriteBreaksRoundTrip` |
| rewriting keeps the source side | `SourceUnchangedIff` | `SourceCanChange` |
| a run cannot hang | `DeadlockFreeIff` | a negative process limit |
| every item topsort leaves over has a child | `LeftoversHaveChildrenIff` | `LeftoverWithoutChild` |

Where the code and its own comments disagree, the code is modelled:

- A remark in `topsort.py` (line 109) says every item left over has a child. What holds is that every one has a left-over
  parent (`LeftoverHasParent`); `LeftoversHaveChildrenIff` says exactly when the remark is right, and
  `LeftoverWithoutChild` gives a graph on which it fails.
- `remove_trailing_whitespace_changes` puts back one blank only: the first group of its pattern is greedy, so the second
  group is one character (`LostBlankIff`). The first chunk with more source than destination lines ends the work on all
  later chunks and patches.
- `Uniquefy` in `print-introspected-doxygen.cc` is there to keep only the unique records, but takes its container by
  value and changes a copy. `GatherNoDuplicatesIff` says exactly when `Gather` still records nothing twice. The program
  itself records the aggregation of `ns3::Node` with `ns3::Icmpv4L4Protocol` twice (lines 537 and 539), and
  `NodeRecordsTwice` is that case.
- The header pattern of `parse_patchset` asks for both line counts; the format, and difflib, leave out a count of one.
  The parser raises on such a header (`HeaderReadIff`, `OneLineRangeRaises`).

## Model

| member | source | states |
|---|---|---|
| `TopSort.BuildGraph` | ns-3.36/bindings/python/topsort.py:77-90 | the dictionaries hold every item of the pairs; an item's parent count is the number of pairs with it as child; its children are those of the pairs with it as parent, in the order of the pairs, repetitions included; and it is a key of the children just if there is such a pair |
| `TopSort.GraphOfEdges` | ns-3.36/bindings/python/topsort.py:79-90 | the graph built has exactly the given pairs as edges |
| `TopSort.KeysInSomeOrder` | ns-3.36/bindings/python/topsort.py:93 | a dictionary's keys, each once, in an unspecified order |
| `TopSort.KnockDown` | ns-3.36/bindings/python/topsort.py:100-103 | lowering the counts of a removed item's children restores the agreement of counts and child lists; what is appended is exactly the children whose count reached zero, each once, in the order of their last entries in the list |
| `TopSort.SortGraph` | ns-3.36/bindings/python/topsort.py:93-112 | the answer lists the items not behind a cycle, once each, sorted by longest incoming walk: first those without parents, then the others by the place of their last parent in the answer and by where that lists them last; an error is raised iff items are left, and then carries exactly the items behind a cycle with their untouched child lists and matching counts |
| `TopSort.TopSort` | ns-3.36/bindings/python/topsort.py:61-112 | the same from a list of pairs: it raises exactly when the pairs have a directed cycle |
| `TopSort.LeftoverSaysPairs` | ns-3.36/bindings/python/topsort.py:108-111 | an error's dictionaries in terms of the pairs: for each item left over the number of pairs that give it a left-over parent, and its children in pair order |
| `SortOrder.AnswerDetermined` | ns-3.36/bindings/python/topsort.py:92-103 | the answer is determined by the dictionaries and by the order of the items without parents |
| `SortOrder.ExampleSorted` | ns-3.36/bindings/python/topsort.py:66-67 | on the pairs (1, 2), (3, 4), (5, 6), (1, 3), (1, 5), (1, 6), (2, 5) the answer is 1, 2, 3, 5, 4, 6 |
| `TopSort.ParentsFirst` | ns-3.36/bindings/python/topsort.py:61-64 | in the answer every item stands after all of its parents |
| `TopSort.AcyclicAnswerComplete` | ns-3.36/bindings/python/topsort.py:108-112 | on an acyclic graph the answer lists every item once |
| `TopSort.StuckIffCyclic` | ns-3.36/bindings/python/topsort.py:108-111 | items are left over exactly when the graph has a cycle |
| `DepGraph.BehindCycleIffUnbounded` | ns-3.36/bindings/python/topsort.py:108-111 | the items behind a cycle are exactly those with walks of every length leading to them |
| `TopSort.LeftoverHasParent` | ns-3.36/bindings/python/topsort.py:108-111 | every left-over item has a positive count and a left-over parent |
| `TopSort.LeftoverWithoutChild` | ns-3.36/bindings/python/topsort.py:109-110 | for the pairs (a, a), (a, b) the left-over item b has no child |
| `TopSort.LeftoversHaveChildrenIff` | ns-3.36/bindings/python/topsort.py:109-110 | every left-over item has a child exactly if every item reachable from a cycle stands in some pair as the parent |
| `TopSort.LowerCounts` | ns-3.36/bindings/python/topsort.py:222-224 | the levels version's inner loop restores agreement of counts and child lists and raises no count |
| `TopSort.RemoveLevel` | ns-3.36/bindings/python/topsort.py:217-224 | removing a level leaves exactly the rest of the graph, with matching counts |
| `TopSort.TopSortLevelsCore` | ns-3.36/bindings/python/topsort.py:174-232 | the k-th list yielded is exactly the items whose longest incoming walk has k edges, all lists together are the items not behind a cycle, and the generator ends with an error iff the graph is cyclic, carrying what is behind a cycle |
| `TopSort.TopSortLevels` | ns-3.36/bindings/python/topsort.py:114-172 | the same from a list of pairs |
| `TopSort.SameLeftover` | ns-3.36/bindings/python/topsort.py:226-229 | both algorithms' errors carry the same two dictionaries, for any iteration orders |
| `TopSort.SortIsConcatenatedLevels` | ns-3.36/bindings/python/topsort.py:92-103 | topsort's list is the lists of topsort_levels laid end to end, each one permuted |
| `Rotations.IsRotated` | ns-3.36/bindings/python/rad_util.py:735-775 | true iff the second sequence is a rotation of the first; two empty sequences raise |
| `Rotations.Symmetric` | ns-3.36/bindings/python/rad_util.py:735-775 | being a rotation is symmetric |
| `Rotations.Transitive` | ns-3.36/bindings/python/rad_util.py:735-775 | being a rotation is transitive |
| `FindCycles.Record` | ns-3.36/bindings/python/topsort.py:369-378 | afterwards a rotation of the cycle is known, and no two known cycles are rotations of each other |
| `FindCycles.Expand` | ns-3.36/bindings/python/topsort.py:353-385 | every cycle closed by an edge from the path's end is known, and exactly the one-step extensions that stay simple are pushed and marked as visited |
| `FindCycles.PushWork` | ns-3.36/bindings/python/topsort.py:352-383 | popping a path and pushing its extensions lowers the number of simple paths still to be popped by one, so the stack loop ends |
| `FindCycles.ExploreFrom` | ns-3.36/bindings/python/topsort.py:351-385 | after one root's stack loop every cycle closed on a simple path from the root is known, and only nodes reachable from the root were marked |
| `FindCycles.CycleFound` | ns-3.36/bindings/python/topsort.py:346-349 | no cycle reachable from an explored root is missed, so skipping visited roots loses none |
| `FindCycles.FindCycles` | ns-3.36/bindings/python/topsort.py:343-385 | for every finite graph and every iteration order: only simple cycles, no two of them rotations, and every simple cycle up to rotation |
| `FindCycles.YieldsIffCyclic` | ns-3.36/bindings/python/topsort.py:235-243 | something is yielded exactly when the graph has a cycle |
| `FindCycles.EnumerationsAgree` | ns-3.36/bindings/python/topsort.py:343-385 | two runs over graphs with the same simple cycles yield equally many cycles, the same up to rotation |
| `FindCycles.ResidualHasSameCycles` | ns-3.36/bindings/python/topsort.py:104-111 | the children dictionary carried by CycleError has exactly the simple cycles of the whole graph |
| `FindCycles.ResidualSearch` | ns-3.36/bindings/python/topsort.py:97-112 | searching that dictionary yields the cycles of the input up to rotation, at least one; the input has cycles exactly when topsort raises |
| `TestScheduler.StepConserves` | ns-3.36/test.py:967-1035 | no step of any thread creates or loses a copy of a job |
| `TestScheduler.StepKeepsBreaksLast` | ns-3.36/test.py:1666-1669 | each break token sent is queued or has stopped a worker, no job is behind a break token, and once a worker has stopped no job is queued |
| `TestScheduler.StepInv` | ns-3.36/test.py:967-1035 | every step keeps: each job exists once in the system, breaks come last, the main thread's phases are in order, and every report is the job's own outcome unless an interrupt cut it off |
| `TestScheduler.RunInv` | ns-3.36/test.py:1405-1461 | that invariant holds after every run from the start, dispatching included |
| `TestScheduler.NeverStuck` | ns-3.36/test.py:1688-1689 | with at least one worker, an unfinished system always has a step to make, also while results are collected and threads joined |
| `TestScheduler.FinishedIsClean` | ns-3.36/test.py:1827-1828 | when all threads are joined, every worker has stopped, both queues are empty, and every dispatched job was collected exactly once |
| `TestScheduler.RunsAreShort` | ns-3.36/test.py:967-1035 | every run makes at most 6 steps per job and 3 per worker, interrupts aside |
| `TestScheduler.DeadlockFreeConfigIff` | ns-3.36/test.py:1405-1408 | every reachable state is finished or can move, if and only if there is a worker or no job |
| `TestScheduler.DeadlockFreeIff` | ns-3.36/test.py:1394-1408 | with the number of workers computed from the processors online and the process limit: that holds exactly if there is a processor and the limit is not negative, or there is no job |
| `TestOrder.WorkersStarted` | ns-3.36/test.py:1394-1408 | how many workers there are: one per processor online, or as many as the limit says if that is positive and no more, and none for a negative limit |
| `TestScheduler.InterruptStopsWork` | ns-3.36/test.py:977-984 | after an interrupt, a job no worker has begun is never begun in any continuation |
| `TestScheduler.InterruptedComesBack` | ns-3.36/test.py:977-984 | in the end such a job has come back exactly once, as cut off |
| `TestOrder.TakenInOrder` | ns-3.36/test.py:967-1035 | for any number of workers, jobs are taken in the order of dispatch: whoever takes one takes the first not taken |
| `TestOrder.OneWorkerKeepsOrder` | ns-3.36/test.py:967-1035 | with one worker the i-th result collected is that of the i-th job |
| `TestSummary.Tally` | ns-3.36/test.py:1681-1722 | the counters are the numbers of results of each kind, the name lists the sorted labels of each kind, and the return value is 0 iff passed plus skipped is the total |
| `TestSummary.Sort` | ns-3.36/test.py:1847-1858 | a name list is sorted in place into an ordered permutation |
| `TestSummary.AtMostIff` | ns-3.36/test.py:1847-1858 | the order of names: by the first character in which they differ, a name before those that go on from it |
| `TestSummary.SortedUnique` | ns-3.36/test.py:1847-1858 | a multiset of names has one sorted list only |
| `TestSummary.SummaryIgnoresOrder` | ns-3.36/test.py:1681-1722 | the summary is a function of the multiset of results |
| `TestSummary.UndisturbedResults` | ns-3.36/test.py:1688-1722 | a finished run without interrupt collects what each job deserves, in some order |
| `TestSummary.SummaryOfOutcomes` | ns-3.36/test.py:1689-1722 | for every list of results: failed, valgrind errors, crashed, passed and skipped are the numbers of results with return code 1, with 2, with none of 0, 1 and 2, with 0, and without one; and how often each name is on each list, skipped ones with their reason in brackets |
| `TestSummary.SummaryOfJobs` | ns-3.36/test.py:1689-1722 | in a finished run without interrupt, the same in terms of the jobs, their skip flags and return codes |
| `TestSummary.SummaryIgnoresSchedule` | ns-3.36/test.py:1681-1722 | without an interrupt, counts, name lists and return value depend on the multiset of jobs alone: not on the schedule, the number of workers or the dispatch order |
| `TestSummary.SummaryOfRun` | ns-3.36/test.py:1842-1843 | in every finished run the counts of all kinds, with the cut-off jobs, add up to the total, and the return value is 0 iff every result passed or was skipped |
| `TestSummary.SuccessIff` | ns-3.36/test.py:1911-1914 | without an interrupt 0 is returned iff every job is skipped or returns 0 |
| `AgeSeries.GetAoiTs` | ns-3.36/analysis_scripts/parse_results_v3.py:169-193 | the loop, which looks only at its own last point, computes the series defined by age = time minus newest generation time so far |
| `AgeSeries.NewestIsMax` | ns-3.36/analysis_scripts/parse_results_v3.py:180-188 | the newest generation time is the maximum of reception time minus delay |
| `AgeSeries.LastIsAge` | ns-3.36/analysis_scripts/parse_results_v3.py:181-186 | after each reception the last point is that reception's time with the age by definition |
| `AgeSeries.SawtoothHasShape` | ns-3.36/analysis_scripts/parse_results_v3.py:180-188 | every step of the series rises with slope one or falls strictly and vertically |
| `AgeSeries.SawtoothKeepsTimeOrder` | ns-3.36/analysis_scripts/parse_results_v3.py:180-188 | sorted receptions give a time-sorted series from the first reception to the last |
| `AgeSeries.SentinelOnlyExtends` | ns-3.36/analysis_scripts/parse_results_v3.py:174-176 | the sentinel adds points only behind those of the receptions |
| `AgeSeries.GetAoiTsUnfiltered` | ns-3.36/analysis_scripts/parse_results_rdf.py:21-35 | the older series, in which every reception resets the age |
| `AgeSeries.UnfilteredAt` | ns-3.36/analysis_scripts/parse_results_rdf.py:21-35 | its points: every reception, and before each but the first the age that the one before has grown to |
| `AgeSeries.NeverAboveUnfiltered` | ns-3.36/analysis_scripts/parse_results_rdf.py:28-33 | after any reception the filtered age is at most the unfiltered one |
| `AgeSeries.SameAsUnfilteredIff` | ns-3.36/analysis_scripts/parse_results_rdf.py:21-35 | the two point lists coincide iff generation times strictly increase |
| `AgeSeries.StaleReceptionDiffers` | ns-3.36/analysis_scripts/parse_results_rdf.py:21-35 | two receptions, the second of an older packet, for which the series differ |
| `AgeSeries.GetPeaks` | ns-3.36/analysis_scripts/parse_results_v3.py:280-291 | the first age, the strict inner local maxima in order, and the last age |
| `AgeSeries.LocalMaximaAt` | ns-3.36/analysis_scripts/parse_results_v3.py:282-288 | these local maxima are exactly the inner points above both neighbours, in order |
| `AgeSeries.LocalMaximaOfSawtooth` | ns-3.36/analysis_scripts/parse_results_v3.py:282-288 | for sorted receptions, the local maxima are exactly the ages that news put an end to later than the reception before it |
| `AgeSeries.LocalMaximaOfSawtoothIff` | ns-3.36/analysis_scripts/parse_results_v3.py:282-288 | for sorted receptions, the local maxima are the ages that a reception with news put an end to, exactly if no news comes at the very time of the reception before |
| `AgeSeries.PeakLostAtTie` | ns-3.36/analysis_scripts/parse_results_v3.py:282-288 | receptions with two at the same time, the second with news, whose ended age is not among the peaks |
| `AgeSeries.PeaksAreEndedAges` | ns-3.36/analysis_scripts/parse_results_v3.py:280-291 | so the peaks of a pair's series are the first delay, every ended age, the age at T_MAX, and 0 |
| `AgeSeries.GreatestAgeIsPeakIff` | ns-3.36/analysis_scripts/parse_results_v3.py:280-291 | for sorted receptions, the greatest age is the first, the last, or ended by news; and it is among the peaks iff it is the first, the last, or ended by news that does not come at the very time of the reception before |
| `AgeSeries.GreatestAgeIsPeak` | ns-3.36/analysis_scripts/parse_results_v3.py:280-291 | on the series of a pair with strictly increasing reception times, the greatest age is among the peaks |
| `AgeSeries.GreatestAgeLost` | ns-3.36/analysis_scripts/parse_results_v3.py:280-291 | receptions at times 0, 150000 and 150000 whose greatest age is not among the peaks |
| `AgeSeries.AreaFromCorners` | ns-3.36/analysis_scripts/parse_results_v3.py:195-201 | twice the trapezoid integral is last age squared minus first age squared plus, over all falls, the squares fallen from minus the squares fallen to |
| `AgeSeries.AreaFromReceptions` | ns-3.36/analysis_scripts/parse_results_v3.py:195-201 | the same area expressed in reception times and delays alone |
| `AgeSeries.AverageIsAreaOverTime` | ns-3.36/analysis_scripts/parse_results_v3.py:195-201 | the average of a pair's series is its area over the time from the first reception to T_MAX |
| `AgeSeries.AverageOfShortSeries` | ns-3.36/analysis_scripts/parse_results_v3.py:195-201 | on a time-sorted series without negative ages -1 is returned iff there is at most one point; and there is no average iff there are more, all at one time |
| `AgeInterpolation.InterpolateAoi` | ns-3.36/analysis_scripts/parse_results_v3.py:15-38 | unchanged if no new time is inside the series, else the stable sort by time of the new points and the old |
| `AgeInterpolation.StableSortSorts` | ns-3.36/analysis_scripts/parse_results_v3.py:37 | the sort orders by time and keeps every point |
| `AgeInterpolation.StableSortIsStable` | ns-3.36/analysis_scripts/parse_results_v3.py:37 | and keeps the order of points of equal time |
| `AgeInterpolation.NothingNew` | ns-3.36/analysis_scripts/parse_results_v3.py:31-32 | a series, sorted or not, is returned as it is if every new time has no point before it or none after |
| `AgeInterpolation.NewPointIsLower` | ns-3.36/analysis_scripts/parse_results_v3.py:19-28 | a new point lies on the series as approached from the left, or below it, and below it iff its time is that of a fall inside the series |
| `AgeInterpolation.InterpolationArea` | ns-3.36/analysis_scripts/parse_results_v3.py:15-38 | on a time-sorted series that falls only: the result is sorted, holds all points, has at most the old area, and has the same area iff no new time is that of a fall inside the series |
| `AgeInterpolation.SawtoothInterpolation` | ns-3.36/analysis_scripts/parse_results_v3.py:90-91 | so on every series of sorted receptions: never more area, and the same area iff no new time is that of an inner fall |
| `AgeInterpolation.InterpolationLosesArea` | ns-3.36/analysis_scripts/parse_results_v3.py:19-37 | with two receptions, the second with news, a new point at the second one's time costs area |
| `AgeInterpolation.LosingInput` | ns-3.36/analysis_scripts/parse_results_v3.py:19-37 | one such input: received at time 0 with delay 0 and at time 10 with delay 2 |
| `AgeHistogram.BinsEndBelowMax` | ns-3.36/analysis_scripts/parse_results_v3.py:248 | there is a k-th bin iff its end is below T_MAX |
| `AgeHistogram.BinEndsAre` | ns-3.36/analysis_scripts/parse_results_v3.py:248 | a multiple of 20 is the end of a bin iff it is positive and below 202000 |
| `AgeHistogram.OnlyMultiples` | ns-3.36/analysis_scripts/parse_results_v3.py:248 | every bin ends at a multiple of 20 |
| `AgeHistogram.AddRect` | ns-3.36/analysis_scripts/parse_results_v3.py:262-263 | each bin whose end lies in the rectangle gains one, all others stay |
| `AgeHistogram.AddSeries` | ns-3.36/analysis_scripts/parse_results_v3.py:255-263 | each bin gains the number of drawn steps through it; the sum of the bins gains the total over the steps, the last step not drawn |
| `AgeHistogram.HitsArePassing` | ns-3.36/analysis_scripts/parse_results_v3.py:262-263 | the hits of a bin are the steps of the series that start at or below its end and end above it |
| `AgeHistogram.ClimbCovers` | ns-3.36/analysis_scripts/parse_results_v3.py:262-263 | a climb covers its height in bins, up to one T_RES |
| `AgeHistogram.HistogramConservation` | ns-3.36/analysis_scripts/parse_results_v3.py:246-263 | the bins of one pair stand for the time from first reception to T_MAX, up to T_RES per climb |
| `AgeHistogram.LastStepLost` | ns-3.36/analysis_scripts/parse_results_v3.py:309-315 | for any series, such as a section: the hits lost with its undrawn last step are none exactly if no bin ends between the last two ages, and else stand for the last climb, up to one T_RES |
| `AgeHistogram.LastClimbLost` | ns-3.36/analysis_scripts/parse_results_v3.py:309-315 | a section of two points, a climb of 100, loses hits for at least 80 of it |
| `AgeHistogram.SentinelSavesLastStep` | ns-3.36/analysis_scripts/parse_results_v3.py:174-176 | the series of a pair loses nothing; without its sentinel it would lose the climb to a last reception without news |
| `AgeHistogram.AddPair` | ns-3.36/analysis_scripts/parse_results_v3.py:254-263 | one pair: each bin, and the sum of all bins, gains what the definition prescribes for the series of its receptions |
| `AgeHistogram.ConservedMore` | ns-3.36/analysis_scripts/parse_results_v3.py:250-263 | a pair more: what all bins together stand for stays the total time in which ages are known, up to one T_RES per reception |
| `AgeHistogram.ExtractAoiDistribution` | ns-3.36/analysis_scripts/parse_results_v3.py:246-263 | from bins of zeros, over all pairs: each bin holds the number of drawn steps through it, and the sum of the bins stands for the total time from first receptions to T_MAX, up to one T_RES per reception |
| `AgeSections.ScanStarts` | ns-3.36/analysis_scripts/parse_results_v3.py:76-82 | the start times found are those of the indices where a run starts |
| `AgeSections.ScanEnds` | ns-3.36/analysis_scripts/parse_results_v3.py:84-88 | the end times found are those where a run ends, and the last sample's |
| `AgeSections.SectionsAreMaximalRuns` | ns-3.36/analysis_scripts/parse_results_v3.py:73-88 | pairing starts with ends by index lists exactly the maximal in-range runs, in order, each before the next; ends has as many entries as starts, or one more iff the last sample is out of range |
| `AgeSections.SampleInSectionIff` | ns-3.36/analysis_scripts/parse_results_v3.py:96-99 | for strictly increasing times a sample's time is in a section iff the sample is in range |
| `AgeSections.CutSections` | ns-3.36/analysis_scripts/parse_results_v3.py:96-100 | each section is the points of the series between its start and end |
| `AgeSectionEnds.BetweenIsSlice` | ns-3.36/analysis_scripts/parse_results_v3.py:96-99 | of a sorted series, a section is the slice of the points that are neither before its start nor after its end |
| `AgeSections.SectionsByMaxHop` | ns-3.36/analysis_scripts/parse_results_v3.py:105-136 | the sections by hop count: one for each maximal run of samples in range, in order, holding the points of the series from the run's first time to its last; every sample in range is in a run |
| `AgeSections.NotBeforeCount` | ns-3.36/analysis_scripts/parse_results_v3.py:62 | the samples kept are all those not before the first age, and no others |
| `AgeSections.NotBeforeIsTail` | ns-3.36/analysis_scripts/parse_results_v3.py:62 | of samples in time order these are the last ones, from the first one that is not earlier |
| `AgeSections.SectionsByMaxDist` | ns-3.36/analysis_scripts/parse_results_v3.py:55-103 | the sections by distance: none without ages or samples in range; with samples in time order, one for each maximal run among those not before the first age, cut from the series interpolated at the ends of all runs |
| `AgeSectionEnds.SectionEndsIff` | ns-3.36/analysis_scripts/parse_results_v3.py:96-99 | without interpolation: a section begins with a point at its start time, or ends with one at its end time, iff the series has a point at that time |
| `AgeSectionEnds.SectionBeginsLate` | ns-3.36/analysis_scripts/parse_results_v3.py:130-133 | a series with points at 0 and 10, cut at 5 and 10, gives a section that does not begin at 5 |
| `AgeSectionEnds.InterpolatedSectionIff` | ns-3.36/analysis_scripts/parse_results_v3.py:90-100 | with interpolation at all starts and ends: either end has a point iff its time is within the series, and its age there is that of the series, after any fall |
| `AgeSectionEnds.DistSectionEnds` | ns-3.36/analysis_scripts/parse_results_v3.py:55-103 | every section by distance begins at its start and ends at its end, each iff that is not beyond the end of the series |
| `AgeSectionEnds.HopSectionEnds` | ns-3.36/analysis_scripts/parse_results_v3.py:105-136 | every section by hops begins at its start and ends at its end, without interpolation, since hops are sampled at receptions |
| `TypeGather.StaticInformation.GetCurrentPath` | ns-3.36/utils/print-introspected-doxygen.cc:328-338 | the path elements, each behind a slash |
| `TypeGather.StaticInformation.HasAlreadyBeenProcessed` | ns-3.36/utils/print-introspected-doxygen.cc:349-361 | true iff the type is being processed |
| `TypeGather.StaticInformation.RecordOutput` | ns-3.36/utils/print-introspected-doxygen.cc:341-346 | appends the type under the current path and nothing else |
| `TypeGather.StaticInformation.DoGather` | ns-3.36/utils/print-introspected-doxygen.cc:420-503 | terminates on every finite graph, restores path and processed types, and appends the records of the walks from the type |
| `TypeGather.StaticInformation.Follow` | ns-3.36/utils/print-introspected-doxygen.cc:449-453 | following one more edge appends the records along it and undoes both pushes |
| `TypeGather.StaticInformation.FollowAttributes` | ns-3.36/utils/print-introspected-doxygen.cc:429-468 | follows the pointer attributes not to Object and the container attributes, in order |
| `TypeGather.StaticInformation.FollowChildren` | ns-3.36/utils/print-introspected-doxygen.cc:469-481 | follows the registered children, in order |
| `TypeGather.StaticInformation.FollowAggregates` | ns-3.36/utils/print-introspected-doxygen.cc:482-502 | follows the aggregations on either side, in order |
| `TypeGather.StaticInformation.Gather` | ns-3.36/utils/print-introspected-doxygen.cc:411-417 | the walk from a type, with nothing removed afterwards |
| `TypeEdges.EdgeIff` | ns-3.36/utils/print-introspected-doxygen.cc:429-502 | the ways on from a type: a pointer attribute not to Object under its name, a container attribute under its name and an index, a child or an aggregate under its type name behind a dollar sign, and no others |
| `TypeEdges.EdgesComeFrom` | ns-3.36/utils/print-introspected-doxygen.cc:429-502 | they come in the order of attributes, children and aggregations, each of these in registry order, one for each source |
| `TypeEdges.RecordedNextIff` | ns-3.36/utils/print-introspected-doxygen.cc:420-503 | in a well-named registry, a type is recorded one step from the type gathered, under a path element, iff there is such a way to it |
| `TypeEdges.ContainerRecorded` | ns-3.36/utils/print-introspected-doxygen.cc:456-466 | the items of a container are recorded under its name and an index, and not under its name alone |
| `TypeGather.WalkMadeIff` | ns-3.36/utils/print-introspected-doxygen.cc:424-427 | an edge sequence is walked iff it revisits no type and meets none being processed |
| `TypeGather.WalksDistinct` | ns-3.36/utils/print-introspected-doxygen.cc:420-503 | no edge sequence is walked twice |
| `TypeGather.OneRecordPerWalk` | ns-3.36/utils/print-introspected-doxygen.cc:420-503 | one record per edge sequence that revisits no type, namely the type at its end under the path along it, and no others |
| `TypeEdges.WalksOrdered` | ns-3.36/utils/print-introspected-doxygen.cc:428-502 | records come in dictionary order of their walks: a type before those behind it, and those along one edge before those along the next |
| `TypeDuplicates.JoinedInjective` | ns-3.36/utils/print-introspected-doxygen.cc:328-338 | a joined path has only one decomposition into path elements, indexed ones included |
| `TypeDuplicates.NoDuplicatesIff` | ns-3.36/utils/print-introspected-doxygen.cc:391-417 | in a graph whose edge names fix their targets, nothing is recorded twice iff no walk ends at a type with two equal edges to a type that is neither on the walk nor being processed |
| `TypeDuplicates.GatherNoDuplicatesIff` | ns-3.36/utils/print-introspected-doxygen.cc:391-503 | for a registry: nothing is recorded twice iff no walk ends at a type whose aggregation with a type not yet seen is recorded twice, in whatever order, or recorded once when that type is also its descendant |
| `TypeDuplicates.LinkedTwiceDuplicates` | ns-3.36/utils/print-introspected-doxygen.cc:391-503 | whatever the names are, a type linked in this way to the one gathered is recorded twice |
| `TypeDuplicates.NodeRecordsTwice` | ns-3.36/utils/print-introspected-doxygen.cc:537-539 | so it is with the aggregation that the program records twice |
| `UnifiedDiff.DecimalRoundTrip` | ns-3.36/utils/check-style.py:301-302 | printed numbers are digits and read back as themselves |
| `UnifiedDiff.DecimalDigits` | ns-3.36/utils/check-style.py:301-302 | a printed number shows its decimal digits, with no zeros in front |
| `DiffReading.ParseRaisesIff` | ns-3.36/utils/check-style.py:374-411 | the parser raises iff some line is of no kind, or names a destination or starts a chunk before any source file is named, or is a line of a chunk before any chunk is started |
| `DiffReading.ParsedIsRead` | ns-3.36/utils/check-style.py:374-411 | what it returns: a file for each source name, with the last destination name before the next; a chunk for each header, in the latest file; and each line in the latest chunk, whatever files have been named since |
| `DiffRoundTrip.ReadLinesAre` | ns-3.36/utils/check-style.py:376 | a file is read in lines that end at its newlines and together are the file |
| `DiffRoundTrip.BodyBack` | ns-3.36/utils/check-style.py:214-227 | a printed clean line is read back with kind and text |
| `DiffRoundTrip.HeaderBack` | ns-3.36/utils/check-style.py:295-304 | a printed chunk header is read back with its positions and its two counts |
| `DiffRoundTrip.PrintedCounts` | ns-3.36/utils/check-style.py:295-304 | in a printed chunk the source count is the number of following lines that begin with "-" or " ", the destination count the number that begin with "+" or " " |
| `DiffHeaders.PrintedHeaderForm` | ns-3.36/utils/check-style.py:301-302 | a printed header has both counts and nothing behind the closing mark |
| `DiffRoundTrip.LineReadIff` | ns-3.36/utils/check-style.py:368-373 | for every line, newlines in it or not: it is read as a name, or as a line of either or both sides, iff it is the mark and what is captured, perhaps with a newline at the end, and no earlier pattern takes it |
| `DiffRoundTrip.EndedParseAlike` | ns-3.36/utils/check-style.py:377-409 | lines are read alike with and without their newlines |
| `DiffHeaders.HeaderReadIff` | ns-3.36/utils/check-style.py:370 | of the headers that the diff format allows, those with both counts are read, whatever follows on the line, and all others match no pattern |
| `DiffHeaders.HeaderIff` | ns-3.36/utils/check-style.py:370 | a text is read as a header iff it is the mark, two positions with their counts in digits, zeros in front or not, the closing mark, and anything |
| `DiffHeaders.ValueOfDigits` | ns-3.36/utils/check-style.py:370 | digits are read as a decimal number, zeros in front counting nothing |
| `DiffHeaders.OneLineRangeRaises` | ns-3.36/utils/check-style.py:367-411 | so the parser raises on a diff with a chunk of one source or one destination line, as difflib writes it |
| `DiffHeaders.OneLineFile` | ns-3.36/utils/check-style.py:454-463 | it raises on the diff of two files of one line |
| `DiffRoundTrip.ParsedIsClean` | ns-3.36/utils/check-style.py:367-411 | whatever the parser returns has, for any lines, no newline in a text or name, no negative position, no removed line starting with "-- " and no added line starting with "++ " |
| `DiffRoundTrip.RoundTripIff` | ns-3.36/utils/check-style.py:356-411 | printing, writing, reading and parsing a patchset gives it back iff it is clean in that sense |
| `DiffRoundTrip.ParsedReadsBack` | ns-3.36/utils/check-style.py:356-411 | so every parsed patchset, printed, is parsed the same again |
| `PatchObjects.PatchChunkLine.SetSrc` | ns-3.36/utils/check-style.py:165-172 | makes the object a removed line with this text |
| `PatchObjects.PatchChunkLine.SetDst` | ns-3.36/utils/check-style.py:173-180 | makes the object an added line with this text |
| `PatchObjects.PatchChunkLine.SetBoth` | ns-3.36/utils/check-style.py:181-188 | makes the object a context line with this text |
| `PatchObjects.PatchChunkLine.AppendToLine` | ns-3.36/utils/check-style.py:189-195 | the text grows by the given one |
| `PatchObjects.PatchChunk.AddLine` | ns-3.36/utils/check-style.py:256-262 | one more line object, the last |
| `PatchObjects.PatchChunk.Src` | ns-3.36/utils/check-style.py:263-272 | the source line objects of a chunk, in order |
| `PatchObjects.PatchChunk.Dst` | ns-3.36/utils/check-style.py:273-282 | the destination line objects of a chunk, in order |
| `PatchObjects.Patch.AddChunk` | ns-3.36/utils/check-style.py:321-327 | one more chunk object, the last |
| `PatchObjects.TakeLine` | ns-3.36/utils/check-style.py:378-410 | one line: the new or changed objects stand for the patchset after that line, each object in one place, and all added ones are new; it raises in exactly the cases in which the line is refused |
| `PatchObjects.ParsePatchset` | ns-3.36/utils/check-style.py:367-411 | raises exactly if the lines are refused; else it returns new objects, linked without sharing, that stand for the patchset that the lines describe |
| `TrailingWhitespace.SidesComplete` | ns-3.36/utils/check-style.py:263-282 | a removed or context line is on the source side's list, an added or context line on the destination side's, and no other; each list is in order |
| `TrailingWhitespace.LostBlankIff` | ns-3.36/utils/check-style.py:414-426 | a pair is repaired iff the source line is the destination line and one space or tab more |
| `TrailingWhitespace.FixPair` | ns-3.36/utils/check-style.py:422-426 | one pair: the destination object gets the source text in that case, no other object changes |
| `TrailingWhitespace.RemoveFromChunk` | ns-3.36/utils/check-style.py:418-428 | all pairs in turn until destination lines run out, kinds unchanged; tells whether they ran out |
| `TrailingWhitespace.CompletesIff` | ns-3.36/utils/check-style.py:418-428 | destination lines run out iff the chunk removes more lines than it adds |
| `TrailingWhitespace.SourceUnchangedIff` | ns-3.36/utils/check-style.py:419-426 | a chunk's source lines keep their text iff no context line equals the source line it is paired with but for a final blank |
| `TrailingWhitespace.SourceCanChange` | ns-3.36/utils/check-style.py:419-426 | a removed line "x " before a context line "x" changes the source side |
| `TrailingWhitespace.DestinationOutcome` | ns-3.36/utils/check-style.py:419-426 | if no context line is hit, each destination line is unchanged or now equals its index-paired source line, also when the loop breaks off |
| `TrailingWhitespace.LineOutcome` | ns-3.36/utils/check-style.py:419-426 | in every chunk, context lines hit or not: what each line becomes, in terms of the texts before the loop |
| `TrailingWhitespace.UnhitInTurn` | ns-3.36/utils/check-style.py:419-426 | where no context line is hit, a source line has its original text when its turn comes |
| `PatchRewriting.RewriteOne` | ns-3.36/utils/check-style.py:417-428 | the objects of one chunk are rewritten, and those of all other chunks still say the same |
| `PatchRewriting.RemoveTrailingWhitespaceChanges` | ns-3.36/utils/check-style.py:413-429 | from lines to the returned patchset: it raises as the parser does; else the objects returned stand for the parsed patchset with every chunk up to and including the first that runs out of destination lines rewritten, and none after it |
| `PatchRewriting.RewrittenIff` | ns-3.36/utils/check-style.py:416-428 | a chunk is rewritten iff no chunk before it, of its own or an earlier patch, removes more lines than it adds |
| `RewriteRoundTrip.RewrittenCleanIff` | ns-3.36/utils/check-style.py:413-429 | rewriting leaves a clean patchset clean iff, in no chunk it gets to, an added line "++" is paired with a source line that is "++ " in its turn |
| `RewriteRoundTrip.RewrittenReadsBackIff` | ns-3.36/utils/check-style.py:356-429 | the rewritten patchset of a patch file, printed and parsed, comes back the same under exactly that condition |
| `RewriteRoundTrip.RewriteBreaksRoundTrip` | ns-3.36/utils/check-style.py:356-429 | a patch that is read back as it is, and no longer is once rewritten |
| `BinaryStrings.Increment` | ns-3.36/bindings/python/rad_util.py:649-659 | the ripple adds one to the number in the array, up to the carry out of the last place |
| `BinaryStrings.BinaryRange` | ns-3.36/bindings/python/rad_util.py:632-660 | terminates with 2^bits strings, the k-th being int2bin(k, bits); with none at all for width 0 |
| `BinaryStrings.Int2BinIs` | ns-3.36/bindings/python/rad_util.py:74-105 | for n >= 1 the hex-table conversion gives the n-bit representation iff the number is below 2^n, and else raises |
| `BinaryStrings.Int2BinOtherwise` | ns-3.36/bindings/python/rad_util.py:93-105 | for width 0 int2bin gives four places for each hexadecimal digit of the number, and for a negative number it raises |
| `BinaryStrings.BinPlace` | ns-3.36/bindings/python/rad_util.py:74-105 | in the n-bit representation the character k places from the right is the k-th bit |
| `BinaryStrings.Bin2IntInverts` | ns-3.36/bindings/python/rad_util.py:108-130 | for n >= 1 bin2int gives back every number that int2bin can write in n places |
| `BinaryStrings.Int2BinInverts` | ns-3.36/bindings/python/rad_util.py:108-130 | int2bin, at the same width, gives back every nonempty string of zeros and ones |
| `BinaryStrings.GrayDecodes` | ns-3.36/bindings/python/rad_util.py:612-615 | Gray codes can be decoded, so no two numbers share one |
| `BinaryStrings.GrayBit` | ns-3.36/bindings/python/rad_util.py:612-615 | each bit of a code tells whether two neighbouring bits of the number differ |
| `BinaryStrings.GrayEncodes` | ns-3.36/bindings/python/rad_util.py:612-615 | every number is a Gray code |
| `BinaryStrings.GrayRange` | ns-3.36/bindings/python/rad_util.py:612-615 | encoding maps the numbers below 2^n to themselves and no others there |
| `BinaryStrings.GrayNeighbours` | ns-3.36/bindings/python/rad_util.py:612-615 | the n-bit strings of consecutive Gray codes differ in exactly one place |
| `Permutations.Permute` | ns-3.36/bindings/python/rad_util.py:293-326 | n! lists, each a rearrangement, every rearrangement among them, and none twice if the items are distinct |

## Left out

- Laziness of the generators `topsort_levels` and `find_cycles`: the model returns all that they yield. A caller that
  changes a yielded cycle also changes the list that later duplicates are compared with; yielded cycles are values here.
- `topsort_levels_core` on counts that disagree with its child lists: its documentation asks for the numbers of parents,
  so the model requires them.
- TestScheduler: threads, queues and job objects are values of a state machine; locking inside the queues and the
  assignment of job fields one by one are not modelled. A job is a name, a skip flag with its reason and a return code;
  commands, valgrind, XML output, durations and the printed progress counter are not.
- The sorting routine behind `list.sort()` and `sorted()`: an insertion sort stands for it, stable where the code relies on it.
- Floating point: ages are real numbers, and a division by a duration of zero is a separate outcome (`NoTime`).
- Selecting the receptions and positions of a pair from data frames, distances from coordinates, percentiles, and
  normalising the histogram by its sum.
- TypeGather: names come with the registry, which is an input; printing and markup are not modelled.
- TypeDuplicates.GatherNoDuplicatesIff: is about one call of Gather, with type and attribute names as
  `src/core/model/type-id.cc` has them (no two types of one name, lines 386-388; no two attributes of a type of one
  name, lines 666-671) and with path elements that can be told apart: no name has a slash, no attribute is called `[i]`
  or starts with a dollar sign. `TypeEdges.RecordedNextIff` and `TypeEdges.ContainerRecorded` assume the same;
  `LinkedTwiceDuplicates`, `EdgeIff` and `EdgesComeFrom` need none of this.
- UnifiedDiff: printing is modelled on values; a line object whose kind was never set, which cannot be printed, is not
  one of them. Only a newline character ends a line, and all of the parser's exceptions are one outcome.
- BinaryStrings.Int2Bin: negative widths are not modelled.
- BinaryStrings.Bin2Int: what `int(s, 2)` accepts besides zeros and ones is not modelled.
- The scenario programs, plotting and experiment scripts, binding generators and the rest of `rad_util.py`: configuration,
  input and output, or members that would add only easy results.
