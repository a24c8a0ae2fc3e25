/**
 test.py: the tally that run_tests makes of the collected results, its sorted name lists and its
 return value, and why they do not depend on how the threads were scheduled.
 */
module TestSummary {
  import opened Basics
  import opened TestScheduler

  datatype Result = Result(job: Job, outcome: Outcome)

  datatype Kind = Pass | Fail | Valgrind | Crash | Skip | Ignored

  /** The branches of the collect loop: a broken-off job is ignored, a skipped one has no return code. */
  function KindOf(r: Result): Kind {
    match r.outcome
    case Interrupted => Ignored
    case Skipped => Skip
    case Returned(code) =>
      if code == 0 then Pass else if code == 1 then Fail else if code == 2 then Valgrind else Crash
  }

  function Label(r: Result): string {
    if KindOf(r) == Skip then r.job.displayName + " (" + r.job.skipReason + ")" else r.job.displayName
  }

  datatype Summary = Summary(
    passed: nat, failed: nat, skipped: nat, crashed: nat, valgrindErrors: nat,
    skippedNames: seq<string>, failedNames: seq<string>, crashedNames: seq<string>, valgrindNames: seq<string>,
    exitCode: int)

  // ---------- sorting names

  /** Order of strings by their first difference. */
  predicate AtMost(a: string, b: string) {
    a == [] || (b != [] && (a[0] < b[0] || (a[0] == b[0] && AtMost(a[1..], b[1..]))))
  }

  /** a comes before b at place k: they agree up to there, and then a ends or has the smaller character. */
  predicate BeforeAt(a: string, b: string, k: int) {
    0 <= k <= |a| && k <= |b| && a[..k] == b[..k] && (k == |a| || (k < |b| && a[k] < b[k]))
  }

  lemma {:induction false} AtMostIff(a: string, b: string)
    ensures AtMost(a, b) <==> exists k :: BeforeAt(a, b, k)
  {
    if a == [] {
      assert BeforeAt(a, b, 0);
    } else if b != [] && a[0] == b[0] {
      AtMostIff(a[1..], b[1..]);
      if k :| BeforeAt(a[1..], b[1..], k) {
        assert a[..k+1] == [a[0]] + a[1..][..k] && b[..k+1] == [b[0]] + b[1..][..k];
        assert BeforeAt(a, b, k + 1);
      }
      if k :| BeforeAt(a, b, k) {
        assert a[1..][..k-1] == a[..k][1..] && b[1..][..k-1] == b[..k][1..];
        assert BeforeAt(a[1..], b[1..], k - 1);
      }
    } else if b != [] {
      assert a[0] < b[0] ==> BeforeAt(a, b, 0);
      assert forall k :: 0 < k <= |a| && k <= |b| ==> a[..k][0] != b[..k][0];
    }
  }

  lemma {:induction false} AtMostTotal(a: string, b: string)
    ensures AtMost(a, b) || AtMost(b, a)
    ensures AtMost(a, b) && AtMost(b, a) ==> a == b
  {
    if a != [] && b != [] && a[0] == b[0] {
      AtMostTotal(a[1..], b[1..]);
      assert a == [a[0]] + a[1..] && b == [b[0]] + b[1..];
    }
  }

  lemma {:induction false} AtMostTransitive(a: string, b: string, c: string)
    requires AtMost(a, b) && AtMost(b, c)
    ensures AtMost(a, c)
  {
    if a != [] && a[0] == b[0] && b[0] == c[0] {
      AtMostTransitive(a[1..], b[1..], c[1..]);
    }
  }

  ghost predicate SortedNames(s: seq<string>) {
    forall i, j :: 0 <= i < j < |s| ==> AtMost(s[i], s[j])
  }

  /** list.sort() on a list of names. */
  method Sort(names: seq<string>) returns (sorted: seq<string>)
    ensures SortedNames(sorted) && multiset(sorted) == multiset(names)
  {
    sorted := [];
    for i := 0 to |names|
      invariant SortedNames(sorted) && multiset(sorted) == multiset(names[..i])
    {
      assert names[..i+1] == names[..i] + [names[i]];
      sorted := Insert(sorted, names[i]);
    }
    assert names[..|names|] == names;
  }

  lemma InsertSorted(low: seq<string>, x: string, high: seq<string>)
    requires SortedNames(low + high)
    requires forall i :: 0 <= i < |low| ==> AtMost(low[i], x)
    requires forall i :: 0 <= i < |high| ==> AtMost(x, high[i])
    ensures SortedNames(low + [x] + high)
    ensures multiset(low + [x] + high) == multiset(low + high) + multiset{x}
  {
    var r, n := low + [x] + high, |low|;
    forall i, j | 0 <= i < j < |r| ensures AtMost(r[i], r[j]) {
      if i != n && j != n {
        var i', j' := if i < n then i else i - 1, if j < n then j else j - 1;
        assert r[i] == (low + high)[i'] && r[j] == (low + high)[j'];
      }
    }
    assert multiset(low + high) == multiset(low) + multiset(high);
  }

  method Insert(sorted: seq<string>, x: string) returns (r: seq<string>)
    requires SortedNames(sorted)
    ensures SortedNames(r) && multiset(r) == multiset(sorted) + multiset{x}
  {
    var k := |sorted|;
    while k > 0 && !AtMost(sorted[k-1], x)
      invariant 0 <= k <= |sorted| && forall i :: k <= i < |sorted| ==> AtMost(x, sorted[i])
    {
      AtMostTotal(sorted[k-1], x);
      k := k - 1;
    }
    forall i | 0 <= i < k ensures AtMost(sorted[i], x) {
      if i < k - 1 { AtMostTransitive(sorted[i], sorted[k-1], x); }
    }
    r := sorted[..k] + [x] + sorted[k..];
    assert sorted == sorted[..k] + sorted[k..];
    InsertSorted(sorted[..k], x, sorted[k..]);
  }

  lemma SmallestFirst(a: seq<string>, x: string)
    requires SortedNames(a) && x in a
    ensures AtMost(a[0], x)
  {
    AtMostTotal(x, x);
  }

  lemma TailCounts<T>(a: seq<T>)
    requires a != []
    ensures multiset(a[1..]) == multiset(a) - multiset{a[0]} && a[0] in multiset(a)
  {
    assert a == [a[0]] + a[1..];
  }

  /** A list has only one sorted arrangement. */
  lemma {:induction false} SortedUnique(a: seq<string>, b: seq<string>)
    requires SortedNames(a) && SortedNames(b) && multiset(a) == multiset(b)
    ensures a == b
  {
    assert |multiset(a)| == |a| && |multiset(b)| == |b|;
    if a != [] {
      TailCounts(a);
      TailCounts(b);
      SmallestFirst(a, b[0]);
      SmallestFirst(b, a[0]);
      AtMostTotal(a[0], b[0]);
      SortedUnique(a[1..], b[1..]);
      assert a == [a[0]] + a[1..] && b == [b[0]] + b[1..];
    }
  }

  // ---------- the tally

  ghost function Count(rs: seq<Result>, k: Kind): nat {
    multiset(Map(KindOf, rs))[k]
  }

  ghost function NamesOf(rs: seq<Result>, k: Kind): seq<string> {
    if rs == [] then []
    else
      var last := rs[|rs|-1];
      NamesOf(rs[..|rs|-1], k) + if KindOf(last) == k then [Label(last)] else []
  }

  ghost predicate SortedNamesOf(names: seq<string>, rs: seq<Result>, k: Kind) {
    SortedNames(names) && multiset(names) == multiset(NamesOf(rs, k))
  }

  /** What run_tests reports about a list of collected results, out of totalTests dispatched. */
  ghost predicate IsSummary(rs: seq<Result>, totalTests: nat, s: Summary) {
    && s.passed == Count(rs, Pass)
    && s.failed == Count(rs, Fail)
    && s.skipped == Count(rs, Skip)
    && s.crashed == Count(rs, Crash)
    && s.valgrindErrors == Count(rs, Valgrind)
    && SortedNamesOf(s.skippedNames, rs, Skip)
    && SortedNamesOf(s.failedNames, rs, Fail)
    && SortedNamesOf(s.crashedNames, rs, Crash)
    && SortedNamesOf(s.valgrindNames, rs, Valgrind)
    && s.exitCode == if s.passed + s.skipped == totalTests then 0 else 1
  }

  lemma TallyStep(rs: seq<Result>, r: Result, k: Kind)
    ensures Count(rs + [r], k) == Count(rs, k) + One(KindOf(r) == k)
    ensures NamesOf(rs + [r], k) == NamesOf(rs, k) + if KindOf(r) == k then [Label(r)] else []
  {
    MapAppend(KindOf, rs, r);
    CountAppend(Map(KindOf, rs), KindOf(r), k);
    assert (rs + [r])[..|rs|] == rs;
  }

  method Tally(results: seq<Result>, totalTests: nat) returns (s: Summary)
    ensures IsSummary(results, totalTests, s)
  {
    var passed, failed, skipped, crashed, valgrindErrors := 0, 0, 0, 0, 0;
    var skippedNames, failedNames, crashedNames, valgrindNames := [], [], [], [];
    for i := 0 to |results|
      invariant passed == Count(results[..i], Pass)
      invariant failed == Count(results[..i], Fail) && failedNames == NamesOf(results[..i], Fail)
      invariant skipped == Count(results[..i], Skip) && skippedNames == NamesOf(results[..i], Skip)
      invariant crashed == Count(results[..i], Crash) && crashedNames == NamesOf(results[..i], Crash)
      invariant valgrindErrors == Count(results[..i], Valgrind) && valgrindNames == NamesOf(results[..i], Valgrind)
    {
      var job := results[i].job;
      ghost var seen := results[..i];
      assert results[..i+1] == seen + [results[i]];
      TallyStep(seen, results[i], Pass);
      TallyStep(seen, results[i], Fail);
      TallyStep(seen, results[i], Skip);
      TallyStep(seen, results[i], Crash);
      TallyStep(seen, results[i], Valgrind);
      match results[i].outcome
      case Interrupted =>
      case Skipped =>
        skipped := skipped + 1;
        skippedNames := skippedNames + [job.displayName + " (" + job.skipReason + ")"];
      case Returned(code) =>
        if code == 0 {
          passed := passed + 1;
        } else if code == 1 {
          failed := failed + 1;
          failedNames := failedNames + [job.displayName];
        } else if code == 2 {
          valgrindErrors := valgrindErrors + 1;
          valgrindNames := valgrindNames + [job.displayName];
        } else {
          crashed := crashed + 1;
          crashedNames := crashedNames + [job.displayName];
        }
    }
    assert results[..|results|] == results;
    skippedNames := Sort(skippedNames);
    failedNames := Sort(failedNames);
    crashedNames := Sort(crashedNames);
    valgrindNames := Sort(valgrindNames);
    s := Summary(passed, failed, skipped, crashed, valgrindErrors,
                 skippedNames, failedNames, crashedNames, valgrindNames,
                 if passed + skipped == totalTests then 0 else 1);
  }

  // ---------- the tally does not see the order of the results

  function Without<T>(s: seq<T>, i: nat): seq<T>
    requires i < |s|
  {
    s[..i] + s[i+1..]
  }

  lemma WithoutCount<T>(s: seq<T>, i: nat)
    requires i < |s|
    ensures multiset(Without(s, i)) == multiset(s) - multiset{s[i]}
    ensures multiset(s) == multiset(Without(s, i)) + multiset{s[i]}
  {
    var a, b := s[..i], s[i+1..];
    assert s == a + ([s[i]] + b);
    assert multiset(s) == multiset(a) + (multiset{s[i]} + multiset(b));
    assert multiset(a + b) == multiset(a) + multiset(b);
  }

  lemma MapWithout<A, B>(f: A -> B, s: seq<A>, i: nat)
    requires i < |s|
    ensures Map(f, Without(s, i)) == Without(Map(f, s), i)
  {
  }

  lemma {:induction false} MapPermutation<A, B>(f: A -> B, a: seq<A>, b: seq<A>)
    requires multiset(a) == multiset(b)
    ensures multiset(Map(f, a)) == multiset(Map(f, b))
    decreases |a|
  {
    if a == [] {
      assert |multiset(b)| == 0;
    } else {
      assert a[0] in multiset(b);
      var i :| 0 <= i < |b| && b[i] == a[0];
      WithoutCount(a, 0);
      WithoutCount(b, i);
      MapPermutation(f, Without(a, 0), Without(b, i));
      MapWithout(f, a, 0);
      MapWithout(f, b, i);
      WithoutCount(Map(f, a), 0);
      WithoutCount(Map(f, b), i);
    }
  }

  function Tagged(r: Result): (Kind, string) {
    (KindOf(r), Label(r))
  }

  lemma {:induction false} NameCount(rs: seq<Result>, k: Kind, name: string)
    ensures multiset(NamesOf(rs, k))[name] == multiset(Map(Tagged, rs))[(k, name)]
  {
    if rs != [] {
      var n := |rs| - 1;
      NameCount(rs[..n], k, name);
      assert rs == rs[..n] + [rs[n]];
      MapAppend(Tagged, rs[..n], rs[n]);
      CountAppend(Map(Tagged, rs[..n]), Tagged(rs[n]), (k, name));
      if KindOf(rs[n]) == k {
        CountAppend(NamesOf(rs[..n], k), Label(rs[n]), name);
      }
    }
  }

  lemma SameNames(rs: seq<Result>, qs: seq<Result>, k: Kind, a: seq<string>, b: seq<string>)
    requires multiset(rs) == multiset(qs) && SortedNamesOf(a, rs, k) && SortedNamesOf(b, qs, k)
    ensures a == b
  {
    MapPermutation(Tagged, rs, qs);
    forall name ensures multiset(a)[name] == multiset(b)[name] {
      NameCount(rs, k, name);
      NameCount(qs, k, name);
    }
    SortedUnique(a, b);
  }

  lemma SummaryIgnoresOrder(rs: seq<Result>, qs: seq<Result>, totalTests: nat, s: Summary, t: Summary)
    requires multiset(rs) == multiset(qs)
    requires IsSummary(rs, totalTests, s) && IsSummary(qs, totalTests, t)
    ensures s == t
  {
    MapPermutation(KindOf, rs, qs);
    SameNames(rs, qs, Skip, s.skippedNames, t.skippedNames);
    SameNames(rs, qs, Fail, s.failedNames, t.failedNames);
    SameNames(rs, qs, Crash, s.crashedNames, t.crashedNames);
    SameNames(rs, qs, Valgrind, s.valgrindNames, t.valgrindNames);
  }

  // ---------- the tally in terms of return codes and names

  ghost function Returning(rs: seq<Result>, code: int): set<int> {
    set i | 0 <= i < |rs| && rs[i].outcome == Returned(code)
  }

  ghost function Crashing(rs: seq<Result>): set<int> {
    set i | 0 <= i < |rs| && rs[i].outcome.Returned? && rs[i].outcome.code !in {0, 1, 2}
  }

  ghost function Skipping(rs: seq<Result>): set<int> {
    set i | 0 <= i < |rs| && rs[i].outcome == Skipped
  }

  ghost function Named(rs: seq<Result>, at: set<int>, name: string): set<int> {
    set i | i in at && 0 <= i < |rs| && rs[i].job.displayName == name
  }

  ghost function NamedWithReason(rs: seq<Result>, at: set<int>, name: string): set<int> {
    set i | i in at && 0 <= i < |rs| && rs[i].job.displayName + " (" + rs[i].job.skipReason + ")" == name
  }

  /** How many results there are of each sort. */
  ghost predicate CountsOutcomes(rs: seq<Result>, s: Summary) {
    && s.passed == |Returning(rs, 0)|
    && s.failed == |Returning(rs, 1)|
    && s.valgrindErrors == |Returning(rs, 2)|
    && s.crashed == |Crashing(rs)|
    && s.skipped == |Skipping(rs)|
  }

  /** How often each name is on each list. */
  ghost predicate NamesOutcomes(rs: seq<Result>, s: Summary, name: string) {
    && multiset(s.failedNames)[name] == |Named(rs, Returning(rs, 1), name)|
    && multiset(s.valgrindNames)[name] == |Named(rs, Returning(rs, 2), name)|
    && multiset(s.crashedNames)[name] == |Named(rs, Crashing(rs), name)|
    && multiset(s.skippedNames)[name] == |NamedWithReason(rs, Skipping(rs), name)|
  }

  ghost function PositionsOf<T(!new)>(s: seq<T>, x: T): set<int> {
    set i | 0 <= i < |s| && s[i] == x
  }

  lemma {:induction false} CountIsPositions<T(!new)>(s: seq<T>, x: T)
    ensures multiset(s)[x] == |PositionsOf(s, x)|
  {
    if s != [] {
      var n := |s| - 1;
      CountIsPositions(s[..n], x);
      assert s == s[..n] + [s[n]];
      assert PositionsOf(s, x) == PositionsOf(s[..n], x) + if s[n] == x then {n} else {};
    }
  }

  lemma CountAs(rs: seq<Result>, k: Kind, at: set<int>)
    requires forall i :: i in at <==> 0 <= i < |rs| && KindOf(rs[i]) == k
    ensures Count(rs, k) == |at|
  {
    CountIsPositions(Map(KindOf, rs), k);
    assert PositionsOf(Map(KindOf, rs), k) == at;
  }

  lemma NamesAs(rs: seq<Result>, k: Kind, name: string, at: set<int>)
    requires forall i :: i in at <==> 0 <= i < |rs| && KindOf(rs[i]) == k && Label(rs[i]) == name
    ensures multiset(NamesOf(rs, k))[name] == |at|
  {
    NameCount(rs, k, name);
    CountIsPositions(Map(Tagged, rs), (k, name));
    assert PositionsOf(Map(Tagged, rs), (k, name)) == at;
  }

  lemma OutcomeKinds(rs: seq<Result>, i: int)
    ensures i in Returning(rs, 1) <==> 0 <= i < |rs| && KindOf(rs[i]) == Fail
    ensures i in Returning(rs, 2) <==> 0 <= i < |rs| && KindOf(rs[i]) == Valgrind
    ensures i in Crashing(rs) <==> 0 <= i < |rs| && KindOf(rs[i]) == Crash
    ensures i in Skipping(rs) <==> 0 <= i < |rs| && KindOf(rs[i]) == Skip
  {
  }

  lemma OutcomeNames(rs: seq<Result>, name: string)
    ensures multiset(NamesOf(rs, Fail))[name] == |Named(rs, Returning(rs, 1), name)|
    ensures multiset(NamesOf(rs, Valgrind))[name] == |Named(rs, Returning(rs, 2), name)|
    ensures multiset(NamesOf(rs, Crash))[name] == |Named(rs, Crashing(rs), name)|
    ensures multiset(NamesOf(rs, Skip))[name] == |NamedWithReason(rs, Skipping(rs), name)|
  {
    forall i | 0 <= i < |rs|
      ensures i in Returning(rs, 1) <==> KindOf(rs[i]) == Fail
      ensures i in Returning(rs, 2) <==> KindOf(rs[i]) == Valgrind
      ensures i in Crashing(rs) <==> KindOf(rs[i]) == Crash
      ensures i in Skipping(rs) <==> KindOf(rs[i]) == Skip
    {
      OutcomeKinds(rs, i);
    }
    NamesAs(rs, Fail, name, Named(rs, Returning(rs, 1), name));
    NamesAs(rs, Valgrind, name, Named(rs, Returning(rs, 2), name));
    NamesAs(rs, Crash, name, Named(rs, Crashing(rs), name));
    NamesAs(rs, Skip, name, NamedWithReason(rs, Skipping(rs), name));
  }

  lemma OutcomeCounts(rs: seq<Result>)
    ensures Count(rs, Pass) == |Returning(rs, 0)| && Count(rs, Fail) == |Returning(rs, 1)|
    ensures Count(rs, Valgrind) == |Returning(rs, 2)| && Count(rs, Crash) == |Crashing(rs)|
    ensures Count(rs, Skip) == |Skipping(rs)|
  {
    CountAs(rs, Pass, Returning(rs, 0));
    CountAs(rs, Fail, Returning(rs, 1));
    CountAs(rs, Valgrind, Returning(rs, 2));
    CountAs(rs, Crash, Crashing(rs));
    CountAs(rs, Skip, Skipping(rs));
  }

  /** The summary in terms of the outcomes and names of the results. */
  lemma SummaryOfOutcomes(rs: seq<Result>, totalTests: nat, s: Summary)
    requires IsSummary(rs, totalTests, s)
    ensures CountsOutcomes(rs, s) && forall name :: NamesOutcomes(rs, s, name)
  {
    OutcomeCounts(rs);
    forall name ensures NamesOutcomes(rs, s, name) {
      OutcomeNames(rs, name);
    }
  }

  // ---------- the results of a run

  ghost predicate ValidReports(c: Config, rs: seq<Report>) {
    forall i :: 0 <= i < |rs| ==> rs[i].job < |c.jobs|
  }

  ghost function Results(c: Config, rs: seq<Report>): seq<Result>
    requires ValidReports(c, rs)
  {
    seq(|rs|, i requires 0 <= i < |rs| => Result(c.jobs[rs[i].job], rs[i].outcome))
  }

  ghost function Select(jobs: seq<Job>, ids: seq<nat>): seq<Job>
    requires forall i :: 0 <= i < |ids| ==> ids[i] < |jobs|
  {
    seq(|ids|, i requires 0 <= i < |ids| => jobs[ids[i]])
  }

  /** ids lists each of 0, ..., n - 1 once. */
  ghost predicate PicksAll(ids: seq<nat>, n: nat) {
    forall j: nat :: multiset(ids)[j] == One(j < n)
  }

  lemma PicksInRange(ids: seq<nat>, n: nat, i: nat)
    requires PicksAll(ids, n) && i < |ids|
    ensures ids[i] < n
  {
    CountedMember(ids, ids[i]);
  }

  lemma PickedOnce(ids: seq<nat>, n: nat) returns (i: nat)
    requires PicksAll(ids, n + 1)
    ensures i < |ids| && ids[i] == n && PicksAll(Without(ids, i), n)
  {
    CountedMember(ids, n);
    i :| 0 <= i < |ids| && ids[i] == n;
    WithoutCount(ids, i);
  }

  /** Picking every position once gives a permutation. */
  lemma {:induction false} SelectPermutation(jobs: seq<Job>, ids: seq<nat>)
    requires PicksAll(ids, |jobs|) && forall i :: 0 <= i < |ids| ==> ids[i] < |jobs|
    ensures multiset(Select(jobs, ids)) == multiset(jobs)
    decreases |jobs|
  {
    if ids == [] {
      assert multiset(ids)[0] == 0 && jobs == [];
    } else {
      assert ids[0] < |jobs|;
      var n := |jobs| - 1;
      var i := PickedOnce(ids, n);
      var fewer, rest := jobs[..n], Without(ids, i);
      forall k | 0 <= k < |rest| ensures rest[k] < n { PicksInRange(rest, n, k); }
      SelectPermutation(fewer, rest);
      assert Select(fewer, rest) == Without(Select(jobs, ids), i);
      WithoutCount(Select(jobs, ids), i);
      assert jobs == fewer + [jobs[n]];
    }
  }

  function Deserved(job: Job): Result {
    Result(job, Verdict(job))
  }

  /** An undisturbed finished run returns what every job deserves, in some order. */
  lemma UndisturbedResults(c: Config, s: State)
    requires Inv(c, s) && Finished(c, s) && !s.threadExit
    ensures ValidReports(c, s.collected)
    ensures multiset(Results(c, s.collected)) == multiset(Map(Deserved, c.jobs))
  {
    FinishedIsClean(c, s);
    var ids := ReportedJobs(s.collected);
    forall i | 0 <= i < |ids| ensures ids[i] < |c.jobs| {
      assert Truthful(c, s.threadExit, s.collected[i]);
    }
    SelectPermutation(c.jobs, ids);
    MapPermutation(Deserved, Select(c.jobs, ids), c.jobs);
    assert Results(c, s.collected) == Map(Deserved, Select(c.jobs, ids)) by {
      forall i | 0 <= i < |ids| ensures Results(c, s.collected)[i] == Deserved(c.jobs[ids[i]]) {
        assert Truthful(c, s.threadExit, s.collected[i]);
      }
    }
  }

  /** Counts, name lists and return value depend on the multiset of jobs alone, not on their order,
      the number of workers or the schedule. */
  lemma SummaryIgnoresSchedule(c: Config, d: Config, s: State, t: State, a: Summary, b: Summary)
    requires multiset(c.jobs) == multiset(d.jobs)
    requires Reachable(c, s) && Finished(c, s) && !s.threadExit
    requires Reachable(d, t) && Finished(d, t) && !t.threadExit
    requires ValidReports(c, s.collected) && IsSummary(Results(c, s.collected), |c.jobs|, a)
    requires ValidReports(d, t.collected) && IsSummary(Results(d, t.collected), |d.jobs|, b)
    ensures a == b
  {
    ReachableInv(c, s);
    ReachableInv(d, t);
    UndisturbedResults(c, s);
    UndisturbedResults(d, t);
    MapPermutation(Deserved, c.jobs, d.jobs);
    assert |multiset(c.jobs)| == |c.jobs| && |multiset(d.jobs)| == |d.jobs|;
    SummaryIgnoresOrder(Results(c, s.collected), Results(d, t.collected), |c.jobs|, a, b);
  }

  lemma {:induction false} KindsAddUp(rs: seq<Result>)
    ensures Count(rs, Pass) + Count(rs, Fail) + Count(rs, Skip) + Count(rs, Crash) + Count(rs, Valgrind)
            + Count(rs, Ignored) == |rs|
  {
    if rs != [] {
      var n := |rs| - 1;
      KindsAddUp(rs[..n]);
      assert rs == rs[..n] + [rs[n]];
      TallyStep(rs[..n], rs[n], Pass);
      TallyStep(rs[..n], rs[n], Fail);
      TallyStep(rs[..n], rs[n], Skip);
      TallyStep(rs[..n], rs[n], Crash);
      TallyStep(rs[..n], rs[n], Valgrind);
      TallyStep(rs[..n], rs[n], Ignored);
    }
  }

  /** In every finished run, interrupted or not, no test is lost from the counts, and the return value
      is 0 exactly when each result passed or was skipped. */
  lemma SummaryOfRun(c: Config, s: State, a: Summary)
    requires Reachable(c, s) && Finished(c, s)
    requires ValidReports(c, s.collected) && IsSummary(Results(c, s.collected), |c.jobs|, a)
    ensures a.passed + a.failed + a.skipped + a.crashed + a.valgrindErrors
            + Count(Results(c, s.collected), Ignored) == |c.jobs|
    ensures a.exitCode == 0 <==>
            forall i :: 0 <= i < |s.collected| ==> KindOf(Results(c, s.collected)[i]) in {Pass, Skip}
  {
    var rs := Results(c, s.collected);
    KindsAddUp(rs);
    var kinds := Map(KindOf, rs);
    OnlyTwo(kinds, Pass, Skip);
  }

  lemma {:induction false} OnlyTwo<T>(s: seq<T>, x: T, y: T)
    requires x != y
    ensures multiset(s)[x] + multiset(s)[y] == |s| <==> forall i :: 0 <= i < |s| ==> s[i] in {x, y}
    ensures multiset(s)[x] + multiset(s)[y] <= |s|
  {
    if s != [] {
      OnlyTwo(s[1..], x, y);
      CountTail(s, x);
      CountTail(s, y);
      assert forall i :: 0 < i < |s| ==> s[i] == s[1..][i-1];
    }
  }

  lemma DeservedSuccess(jobs: seq<Job>)
    ensures Count(Map(Deserved, jobs), Pass) + Count(Map(Deserved, jobs), Skip) == |jobs|
       <==> forall j :: 0 <= j < |jobs| ==> jobs[j].isSkip || jobs[j].returncode == 0
  {
    var kinds := Map(KindOf, Map(Deserved, jobs));
    OnlyTwo(kinds, Pass, Skip);
    forall j | 0 <= j < |jobs| ensures kinds[j] in {Pass, Skip} <==> jobs[j].isSkip || jobs[j].returncode == 0 {
      assert kinds[j] == KindOf(Deserved(jobs[j]));
    }
  }

  /** Without an interrupt, the return value is 0 exactly when every job is skipped or returns 0. */
  lemma SuccessIff(c: Config, s: State, a: Summary)
    requires Reachable(c, s) && Finished(c, s) && !s.threadExit
    requires ValidReports(c, s.collected) && IsSummary(Results(c, s.collected), |c.jobs|, a)
    ensures a.exitCode == 0 <==> forall j :: 0 <= j < |c.jobs| ==> c.jobs[j].isSkip || c.jobs[j].returncode == 0
  {
    ReachableInv(c, s);
    UndisturbedResults(c, s);
    var want := Map(Deserved, c.jobs);
    MapPermutation(KindOf, Results(c, s.collected), want);
    DeservedSuccess(c.jobs);
  }

  // ---------- the summary of a run in terms of its jobs

  ghost function JobsReturning(jobs: seq<Job>, code: int): set<int> {
    set j | 0 <= j < |jobs| && !jobs[j].isSkip && jobs[j].returncode == code
  }

  ghost function JobsCrashing(jobs: seq<Job>): set<int> {
    set j | 0 <= j < |jobs| && !jobs[j].isSkip && jobs[j].returncode !in {0, 1, 2}
  }

  ghost function JobsSkipped(jobs: seq<Job>): set<int> {
    set j | 0 <= j < |jobs| && jobs[j].isSkip
  }

  ghost function JobsNamed(jobs: seq<Job>, at: set<int>, name: string): set<int> {
    set j | j in at && 0 <= j < |jobs| && jobs[j].displayName == name
  }

  ghost function JobsNamedWithReason(jobs: seq<Job>, at: set<int>, name: string): set<int> {
    set j | j in at && 0 <= j < |jobs| && jobs[j].displayName + " (" + jobs[j].skipReason + ")" == name
  }

  ghost predicate CountsJobs(jobs: seq<Job>, s: Summary) {
    && s.passed == |JobsReturning(jobs, 0)|
    && s.failed == |JobsReturning(jobs, 1)|
    && s.valgrindErrors == |JobsReturning(jobs, 2)|
    && s.crashed == |JobsCrashing(jobs)|
    && s.skipped == |JobsSkipped(jobs)|
  }

  ghost predicate NamesJobs(jobs: seq<Job>, s: Summary, name: string) {
    && multiset(s.failedNames)[name] == |JobsNamed(jobs, JobsReturning(jobs, 1), name)|
    && multiset(s.valgrindNames)[name] == |JobsNamed(jobs, JobsReturning(jobs, 2), name)|
    && multiset(s.crashedNames)[name] == |JobsNamed(jobs, JobsCrashing(jobs), name)|
    && multiset(s.skippedNames)[name] == |JobsNamedWithReason(jobs, JobsSkipped(jobs), name)|
  }

  lemma PermutedSummary(rs: seq<Result>, qs: seq<Result>, totalTests: nat, s: Summary)
    requires multiset(rs) == multiset(qs) && IsSummary(rs, totalTests, s)
    ensures IsSummary(qs, totalTests, s)
  {
    MapPermutation(KindOf, rs, qs);
    PermutedNames(rs, qs, Skip, s.skippedNames);
    PermutedNames(rs, qs, Fail, s.failedNames);
    PermutedNames(rs, qs, Crash, s.crashedNames);
    PermutedNames(rs, qs, Valgrind, s.valgrindNames);
  }

  lemma PermutedNames(rs: seq<Result>, qs: seq<Result>, k: Kind, names: seq<string>)
    requires multiset(rs) == multiset(qs) && SortedNamesOf(names, rs, k)
    ensures SortedNamesOf(names, qs, k)
  {
    MapPermutation(Tagged, rs, qs);
    forall name ensures multiset(names)[name] == multiset(NamesOf(qs, k))[name] {
      NameCount(rs, k, name);
      NameCount(qs, k, name);
    }
  }

  lemma DeservedSets(jobs: seq<Job>, rs: seq<Result>)
    requires rs == Map(Deserved, jobs)
    ensures forall code :: Returning(rs, code) == JobsReturning(jobs, code)
    ensures Crashing(rs) == JobsCrashing(jobs) && Skipping(rs) == JobsSkipped(jobs)
    ensures forall at, name :: Named(rs, at, name) == JobsNamed(jobs, at, name)
    ensures forall at, name :: NamedWithReason(rs, at, name) == JobsNamedWithReason(jobs, at, name)
  {
  }

  /** Without an interrupt: how many tests passed, failed, had valgrind errors, crashed and were skipped, and how
      often each name is on each list, in terms of the jobs and their return codes. */
  lemma SummaryOfJobs(c: Config, s: State, a: Summary)
    requires Reachable(c, s) && Finished(c, s) && !s.threadExit
    requires ValidReports(c, s.collected) && IsSummary(Results(c, s.collected), |c.jobs|, a)
    ensures CountsJobs(c.jobs, a) && forall name :: NamesJobs(c.jobs, a, name)
  {
    var want := Map(Deserved, c.jobs);
    ReachableInv(c, s);
    UndisturbedResults(c, s);
    PermutedSummary(Results(c, s.collected), want, |c.jobs|, a);
    SummaryOfOutcomes(want, |c.jobs|, a);
    DeservedSets(c.jobs, want);
    forall name ensures NamesJobs(c.jobs, a, name) {
      assert NamesOutcomes(want, a, name);
    }
  }
}
