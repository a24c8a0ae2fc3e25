/**
 analysis_scripts/parse_results_v3.py: cutting an age series into the sections during which two nodes
 are close to each other, by distance or by number of hops.
 */
module AgeSections {
  import opened AgeSeries
  import opened AgeInterpolation

  /** A distance, or a number of hops, at a time. */
  datatype Sample = Sample(t: real, value: real)

  predicate InRange(s: seq<Sample>, limit: real, i: int)
    requires 0 <= i < |s|
  {
    s[i].value <= limit
  }

  ghost predicate StrictTimes(s: seq<Sample>) {
    forall i, j :: 0 <= i < j < |s| ==> s[i].t < s[j].t
  }

  ghost predicate OrderedTimes(s: seq<Sample>) {
    forall i, j :: 0 <= i < j < |s| ==> s[i].t <= s[j].t
  }

  /** Samples a to b are in range, and neither neighbour of that stretch is. */
  ghost predicate MaximalRun(s: seq<Sample>, limit: real, a: int, b: int) {
    && 0 <= a <= b < |s|
    && (forall i :: a <= i <= b ==> InRange(s, limit, i))
    && (a > 0 ==> !InRange(s, limit, a - 1))
    && (b < |s| - 1 ==> !InRange(s, limit, b + 1))
  }

  // ---------- the two scans

  /** Where a run starts: in range, and the sample before is not, or there is none. */
  ghost function Starts(s: seq<Sample>, limit: real): seq<nat> {
    if s == [] then []
    else
      var n := |s| - 1;
      Starts(s[..n], limit)
      + if InRange(s, limit, n) && (n == 0 || !InRange(s, limit, n - 1)) then [n] else []
  }

  /** Where a run ends before the last sample: in range, and the sample after is not. */
  ghost function InnerEnds(s: seq<Sample>, limit: real): seq<nat> {
    if |s| < 2 then []
    else
      var n := |s| - 1;
      InnerEnds(s[..n], limit)
      + if InRange(s, limit, n - 1) && !InRange(s, limit, n) then [n - 1] else []
  }

  ghost function Ends(s: seq<Sample>, limit: real): seq<nat>
    requires s != []
  {
    InnerEnds(s, limit) + [|s| - 1]
  }

  ghost predicate Indices(s: seq<Sample>, ks: seq<nat>) {
    forall i :: 0 <= i < |ks| ==> ks[i] < |s|
  }

  ghost function TimesAt(s: seq<Sample>, ks: seq<nat>): seq<real>
    requires Indices(s, ks)
  {
    seq(|ks|, i requires 0 <= i < |ks| => s[ks[i]].t)
  }

  lemma {:induction false} ScanIndices(s: seq<Sample>, limit: real)
    ensures Indices(s, Starts(s, limit)) && Indices(s, InnerEnds(s, limit))
  {
    if s != [] {
      ScanIndices(s[..|s|-1], limit);
    }
  }

  lemma TimesMore(s: seq<Sample>, x: Sample, ks: seq<nat>, k: nat)
    requires Indices(s, ks) && k <= |s|
    ensures Indices(s + [x], ks + [k]) && Indices(s + [x], ks)
    ensures TimesAt(s + [x], ks) == TimesAt(s, ks)
    ensures TimesAt(s + [x], ks + [k]) == TimesAt(s, ks) + [(s + [x])[k].t]
  {
  }

  method ScanStarts(s: seq<Sample>, limit: real) returns (sectionStarts: seq<real>)
    requires s != []
    ensures Indices(s, Starts(s, limit)) && sectionStarts == TimesAt(s, Starts(s, limit))
  {
    sectionStarts := [];
    if s[0].value <= limit {
      sectionStarts := sectionStarts + [s[0].t];
    }
    for i := 1 to |s|
      invariant Indices(s[..i], Starts(s[..i], limit)) && sectionStarts == TimesAt(s[..i], Starts(s[..i], limit))
    {
      assert s[..i+1] == s[..i] + [s[i]] && s[..i+1][..i] == s[..i];
      TimesMore(s[..i], s[i], Starts(s[..i], limit), i);
      if s[i-1].value > limit && s[i].value <= limit {
        sectionStarts := sectionStarts + [s[i].t];
      }
    }
    assert s[..|s|] == s;
  }

  /** Each pair of neighbours adds at most the first one's time. */
  lemma EndsMore(s: seq<Sample>, x: Sample, limit: real)
    requires s != [] && Indices(s, InnerEnds(s, limit))
    ensures Indices(s + [x], InnerEnds(s + [x], limit))
    ensures TimesAt(s + [x], InnerEnds(s + [x], limit))
         == TimesAt(s, InnerEnds(s, limit)) + if s[|s|-1].value <= limit && x.value > limit then [s[|s|-1].t] else []
  {
    assert (s + [x])[..|s|] == s;
    TimesMore(s, x, InnerEnds(s, limit), |s| - 1);
  }

  method ScanEnds(s: seq<Sample>, limit: real) returns (sectionEnds: seq<real>)
    requires s != []
    ensures Indices(s, Ends(s, limit)) && sectionEnds == TimesAt(s, Ends(s, limit))
  {
    sectionEnds := [];
    for i := 0 to |s| - 1
      invariant Indices(s[..i+1], InnerEnds(s[..i+1], limit))
      invariant sectionEnds == TimesAt(s[..i+1], InnerEnds(s[..i+1], limit))
    {
      assert s[..i+2] == s[..i+1] + [s[i+1]];
      EndsMore(s[..i+1], s[i+1], limit);
      if s[i].value <= limit && s[i+1].value > limit {
        sectionEnds := sectionEnds + [s[i].t];
      }
    }
    assert s[..|s|] == s;
    sectionEnds := sectionEnds + [s[|s|-1].t];
  }

  // ---------- the scans find the maximal runs

  /** The scans pair up: k starts, and k ends, or k - 1 when the last run is still open. */
  ghost predicate PairedUp(s: seq<Sample>, limit: real, starts: seq<nat>, ends: seq<nat>) {
    && s != []
    && |starts| == |ends| + (if InRange(s, limit, |s| - 1) then 1 else 0)
    && (forall i :: 0 <= i < |ends| ==> MaximalRun(s, limit, starts[i], ends[i]))
    && (forall i :: 0 <= i < |ends| && i + 1 < |starts| ==> ends[i] < starts[i+1])
    && (InRange(s, limit, |s| - 1) ==> MaximalRun(s, limit, starts[|starts|-1], |s| - 1))
    && (forall k :: 0 <= k < |s| && InRange(s, limit, k) ==> InRun(starts, ends, |s|, k))
  }

  /** Sample k lies in one of the runs; the last one may be open to the end. */
  ghost predicate InRun(starts: seq<nat>, ends: seq<nat>, n: nat, k: int) {
    exists i :: 0 <= i < |starts| && starts[i] <= k < n && (i < |ends| ==> k <= ends[i])
  }

  lemma RunGrows(s: seq<Sample>, x: Sample, limit: real, a: int, b: int)
    requires MaximalRun(s, limit, a, b) && (b < |s| - 1 || x.value > limit)
    ensures MaximalRun(s + [x], limit, a, b)
  {
    forall i | a <= i <= b ensures InRange(s + [x], limit, i) {
      assert InRange(s, limit, i);
    }
    assert a > 0 ==> !InRange(s, limit, a - 1);
    assert b < |s| - 1 ==> !InRange(s, limit, b + 1);
  }

  lemma RunExtends(s: seq<Sample>, x: Sample, limit: real, a: int)
    requires MaximalRun(s, limit, a, |s| - 1) && x.value <= limit
    ensures MaximalRun(s + [x], limit, a, |s|)
  {
    forall i | a <= i <= |s| ensures InRange(s + [x], limit, i) {
      assert i < |s| ==> InRange(s, limit, i);
    }
    assert a > 0 ==> !InRange(s, limit, a - 1);
  }

  lemma EarlierRunsGrow(s: seq<Sample>, x: Sample, limit: real, starts: seq<nat>, ends: seq<nat>)
    requires PairedUp(s, limit, starts, ends)
    ensures forall i :: 0 <= i < |ends| ==> MaximalRun(s + [x], limit, starts[i], ends[i])
  {
    forall i | 0 <= i < |ends| ensures MaximalRun(s + [x], limit, starts[i], ends[i]) {
      assert ends[i] < |s| - 1;
      RunGrows(s, x, limit, starts[i], ends[i]);
    }
  }

  /** The runs known so far keep their samples when something is appended behind. */
  lemma InRunGrows(starts: seq<nat>, ends: seq<nat>, n: nat, k: int, a: seq<nat>, b: seq<nat>)
    requires InRun(starts, ends, n, k) && |b| <= 1 && (b != [] ==> n - 1 <= b[0])
    ensures InRun(starts + a, ends + b, n + 1, k)
  {
    var i :| 0 <= i < |starts| && starts[i] <= k < n && (i < |ends| ==> k <= ends[i]);
    assert (starts + a)[i] == starts[i];
    assert i < |ends| ==> (ends + b)[i] == ends[i];
    assert i == |ends| < |ends + b| ==> (ends + b)[i] == b[0];
  }

  /** The samples in range of a longer series: those of the shorter one, and perhaps the new one. */
  lemma InRunStep(s: seq<Sample>, x: Sample, limit: real, starts: seq<nat>, ends: seq<nat>, a: seq<nat>, b: seq<nat>)
    requires PairedUp(s, limit, starts, ends) && |b| <= 1 && (b != [] ==> |s| - 1 <= b[0])
    requires x.value <= limit ==> InRun(starts + a, ends + b, |s| + 1, |s|)
    ensures forall k :: 0 <= k < |s| + 1 && InRange(s + [x], limit, k) ==> InRun(starts + a, ends + b, |s| + 1, k)
  {
    forall k | 0 <= k < |s| + 1 && InRange(s + [x], limit, k) ensures InRun(starts + a, ends + b, |s| + 1, k) {
      if k < |s| {
        assert InRange(s, limit, k);
        InRunGrows(starts, ends, |s|, k, a, b);
      }
    }
  }

  lemma PairedUpStep(s: seq<Sample>, x: Sample, limit: real, starts: seq<nat>, ends: seq<nat>)
    requires PairedUp(s, limit, starts, ends)
    ensures var before, now := InRange(s, limit, |s| - 1), x.value <= limit;
            PairedUp(s + [x], limit, starts + (if now && !before then [|s|] else []),
                                     ends + (if before && !now then [|s| - 1] else []))
  {
    var before, now := InRange(s, limit, |s| - 1), x.value <= limit;
    var n := |s|;
    EarlierRunsGrow(s, x, limit, starts, ends);
    if before && now {
      OpenRunExtends(s, x, limit, starts, ends);
    } else if before {
      OpenRunCloses(s, x, limit, starts, ends);
    } else if now {
      NewRunOpens(s, x, limit, starts, ends);
    } else {
      InRunStep(s, x, limit, starts, ends, [], []);
      assert starts + [] == starts && ends + [] == ends;
    }
  }

  lemma OpenRunExtends(s: seq<Sample>, x: Sample, limit: real, starts: seq<nat>, ends: seq<nat>)
    requires PairedUp(s, limit, starts, ends) && InRange(s, limit, |s| - 1) && x.value <= limit
    ensures PairedUp(s + [x], limit, starts + [], ends + [])
  {
    EarlierRunsGrow(s, x, limit, starts, ends);
    RunExtends(s, x, limit, starts[|starts|-1]);
    assert starts + [] == starts && ends + [] == ends;
    assert starts[|starts|-1] <= |s| < |s| + 1;
    assert InRun(starts, ends, |s| + 1, |s|);
    InRunStep(s, x, limit, starts, ends, [], []);
  }

  lemma OpenRunCloses(s: seq<Sample>, x: Sample, limit: real, starts: seq<nat>, ends: seq<nat>)
    requires PairedUp(s, limit, starts, ends) && InRange(s, limit, |s| - 1) && x.value > limit
    ensures PairedUp(s + [x], limit, starts + [], ends + [|s| - 1])
  {
    EarlierRunsGrow(s, x, limit, starts, ends);
    RunGrows(s, x, limit, starts[|starts|-1], |s| - 1);
    assert starts + [] == starts;
    InRunStep(s, x, limit, starts, ends, [], [|s| - 1]);
  }

  lemma NewRunOpens(s: seq<Sample>, x: Sample, limit: real, starts: seq<nat>, ends: seq<nat>)
    requires PairedUp(s, limit, starts, ends) && !InRange(s, limit, |s| - 1) && x.value <= limit
    ensures PairedUp(s + [x], limit, starts + [|s|], ends + [])
  {
    EarlierRunsGrow(s, x, limit, starts, ends);
    assert MaximalRun(s + [x], limit, |s|, |s|);
    assert ends + [] == ends;
    assert (starts + [|s|])[|starts|] == |s|;
    assert InRun(starts + [|s|], ends, |s| + 1, |s|);
    InRunStep(s, x, limit, starts, ends, [|s|], []);
  }

  lemma {:induction false} ScansPairUp(s: seq<Sample>, limit: real)
    requires s != []
    ensures PairedUp(s, limit, Starts(s, limit), InnerEnds(s, limit))
  {
    var n := |s| - 1;
    if n == 0 {
      assert s[..0] == [] && Starts(s[..0], limit) == [];
      if InRange(s, limit, 0) {
        assert Starts(s, limit) == [0];
        assert MaximalRun(s, limit, 0, 0);
        assert InRun(Starts(s, limit), [], 1, 0);
      }
    } else {
      ScansPairUp(s[..n], limit);
      PairedUpStep(s[..n], s[n], limit, Starts(s[..n], limit), InnerEnds(s[..n], limit));
      assert s == s[..n] + [s[n]];
      assert InRange(s, limit, n - 1) == InRange(s[..n], limit, |s[..n]| - 1);
    }
  }

  /** (a, b) is the i-th pair of starts and ends, for some i. */
  ghost predicate Listed(starts: seq<nat>, ends: seq<nat>, a: int, b: int) {
    exists i :: 0 <= i < |starts| && i < |ends| && starts[i] == a && ends[i] == b
  }

  /** starts[i] and ends[i] delimit the maximal runs, all of them, in order; an index of starts is
      always one of ends, and ends has at most one entry more. */
  lemma SectionsAreMaximalRuns(s: seq<Sample>, limit: real)
    requires s != []
    ensures |Starts(s, limit)| <= |Ends(s, limit)| <= |Starts(s, limit)| + 1
    ensures |Ends(s, limit)| == |Starts(s, limit)| <==> InRange(s, limit, |s| - 1)
    ensures forall a, b :: MaximalRun(s, limit, a, b) <==> Listed(Starts(s, limit), Ends(s, limit), a, b)
    ensures forall i, j :: 0 <= i < j < |Starts(s, limit)| ==> Ends(s, limit)[i] < Starts(s, limit)[j]
  {
    ScansPairUp(s, limit);
    forall i, j | 0 <= i < j < |Starts(s, limit)| ensures Ends(s, limit)[i] < Starts(s, limit)[j] {
      RunsInOrder(s, limit, Starts(s, limit), InnerEnds(s, limit), i, j);
    }
    forall a, b ensures MaximalRun(s, limit, a, b) <==> Listed(Starts(s, limit), Ends(s, limit), a, b) {
      if MaximalRun(s, limit, a, b) {
        RunIsListed(s, limit, Starts(s, limit), InnerEnds(s, limit), a, b);
      }
      if Listed(Starts(s, limit), Ends(s, limit), a, b) {
        ListedIsRun(s, limit, Starts(s, limit), InnerEnds(s, limit), a, b);
      }
    }
  }

  lemma ListedIsRun(s: seq<Sample>, limit: real, starts: seq<nat>, inner: seq<nat>, a: int, b: int)
    requires PairedUp(s, limit, starts, inner) && Listed(starts, inner + [|s| - 1], a, b)
    ensures MaximalRun(s, limit, a, b)
  {
    var ends := inner + [|s| - 1];
    var i :| 0 <= i < |starts| && i < |ends| && starts[i] == a && ends[i] == b;
    if i < |inner| {
      assert MaximalRun(s, limit, starts[i], inner[i]);
    }
  }

  lemma RunIsListed(s: seq<Sample>, limit: real, starts: seq<nat>, inner: seq<nat>, a: int, b: int)
    requires PairedUp(s, limit, starts, inner) && MaximalRun(s, limit, a, b)
    ensures Listed(starts, inner + [|s| - 1], a, b)
  {
    var ends := inner + [|s| - 1];
    assert InRange(s, limit, a);
    var i :| 0 <= i < |starts| && starts[i] <= a < |s| && (i < |inner| ==> a <= inner[i]);
    assert starts[i] <= a <= ends[i];
    assert Listed(starts, ends, starts[i], ends[i]);
    ListedIsRun(s, limit, starts, inner, starts[i], ends[i]);
    RunsCoincide(s, limit, a, b, starts[i], ends[i]);
  }

  lemma {:induction false} RunsInOrder(s: seq<Sample>, limit: real, starts: seq<nat>, ends: seq<nat>, i: nat, j: nat)
    requires PairedUp(s, limit, starts, ends) && i < j < |starts|
    ensures i < |ends| && ends[i] < starts[j]
    decreases j
  {
    if i < j - 1 {
      RunsInOrder(s, limit, starts, ends, i, j - 1);
      assert MaximalRun(s, limit, starts[j-1], ends[j-1]);
    }
  }

  lemma RunsCoincide(s: seq<Sample>, limit: real, a: int, b: int, c: int, d: int)
    requires MaximalRun(s, limit, a, b) && MaximalRun(s, limit, c, d) && c <= a <= d
    ensures a == c && b == d
  {
  }

  // ---------- the sections themselves

  /** The points from start to end, both included. */
  function Between(s: seq<Point>, from: real, to: real): seq<Point> {
    if s == [] then []
    else Between(s[..|s|-1], from, to) + if from <= s[|s|-1].t <= to then [s[|s|-1]] else []
  }

  /** A time is in one of the sections. */
  ghost predicate InSomeSection(starts: seq<real>, ends: seq<real>, t: real) {
    exists i :: 0 <= i < |starts| && i < |ends| && starts[i] <= t <= ends[i]
  }

  /** With strictly increasing sample times, a sample's time is in a section exactly when the sample is in range. */
  lemma SampleInSectionIff(s: seq<Sample>, limit: real, k: nat)
    requires StrictTimes(s) && k < |s|
    requires Indices(s, Starts(s, limit)) && Indices(s, Ends(s, limit))
    ensures InSomeSection(TimesAt(s, Starts(s, limit)), TimesAt(s, Ends(s, limit)), s[k].t)
       <==> s[k].value <= limit
  {
    ScansPairUp(s, limit);
    if InSomeSection(TimesAt(s, Starts(s, limit)), TimesAt(s, Ends(s, limit)), s[k].t) {
      SectionSample(s, limit, Starts(s, limit), InnerEnds(s, limit), k);
    }
    if InRange(s, limit, k) {
      var i := RunOf(s, limit, Starts(s, limit), InnerEnds(s, limit), k);
      AtIndex(s, Starts(s, limit), Ends(s, limit), i, s[k].t);
    }
  }

  lemma AtIndex(s: seq<Sample>, starts: seq<nat>, ends: seq<nat>, i: nat, t: real)
    requires Indices(s, starts) && Indices(s, ends) && i < |starts| && i < |ends|
    requires s[starts[i]].t <= t <= s[ends[i]].t
    ensures InSomeSection(TimesAt(s, starts), TimesAt(s, ends), t)
  {
    assert TimesAt(s, starts)[i] <= t <= TimesAt(s, ends)[i];
  }

  lemma SectionSample(s: seq<Sample>, limit: real, starts: seq<nat>, inner: seq<nat>, k: nat)
    requires PairedUp(s, limit, starts, inner) && StrictTimes(s) && k < |s|
    requires Indices(s, starts) && Indices(s, inner + [|s| - 1])
    requires InSomeSection(TimesAt(s, starts), TimesAt(s, inner + [|s| - 1]), s[k].t)
    ensures InRange(s, limit, k)
  {
    var a, b := TimesAt(s, starts), TimesAt(s, inner + [|s| - 1]);
    var i :| 0 <= i < |a| && i < |b| && a[i] <= s[k].t <= b[i];
    WithinRun(s, limit, starts, inner, i, k);
  }

  lemma WithinRun(s: seq<Sample>, limit: real, starts: seq<nat>, inner: seq<nat>, i: nat, k: nat)
    requires PairedUp(s, limit, starts, inner) && StrictTimes(s) && k < |s|
    requires var ends := inner + [|s| - 1];
             i < |starts| && i < |ends| && starts[i] < |s| && ends[i] < |s| && s[starts[i]].t <= s[k].t <= s[ends[i]].t
    ensures InRange(s, limit, k)
  {
    var ends := inner + [|s| - 1];
    assert Listed(starts, ends, starts[i], ends[i]);
    ListedIsRun(s, limit, starts, inner, starts[i], ends[i]);
    TimeOrder(s, starts[i], k, ends[i]);
  }

  lemma RunOf(s: seq<Sample>, limit: real, starts: seq<nat>, inner: seq<nat>, k: nat) returns (i: nat)
    requires PairedUp(s, limit, starts, inner) && StrictTimes(s) && k < |s| && InRange(s, limit, k)
    ensures var ends := inner + [|s| - 1];
            i < |starts| && i < |ends| && starts[i] < |s| && ends[i] < |s| && s[starts[i]].t <= s[k].t <= s[ends[i]].t
  {
    var ends := inner + [|s| - 1];
    i :| 0 <= i < |starts| && starts[i] <= k < |s| && (i < |inner| ==> k <= inner[i]);
    if i < |inner| {
      assert MaximalRun(s, limit, starts[i], inner[i]);
    }
    TimeOrder(s, starts[i], k, ends[i]);
  }

  lemma TimeOrder(s: seq<Sample>, a: nat, k: nat, b: nat)
    requires StrictTimes(s) && a < |s| && k < |s| && b < |s|
    ensures a <= k <= b <==> s[a].t <= s[k].t <= s[b].t
  {
  }

  /** Each pair of times cuts its section out of the series. */
  ghost predicate CutOut(sections: seq<seq<Point>>, s: seq<Point>, starts: seq<real>, ends: seq<real>) {
    && |sections| == |starts| <= |ends|
    && forall i :: 0 <= i < |sections| ==> sections[i] == Between(s, starts[i], ends[i])
  }

  /** The pairing loop; it never looks beyond the last end. */
  method CutSections(s: seq<Point>, starts: seq<real>, ends: seq<real>) returns (sections: seq<seq<Point>>)
    requires |starts| <= |ends|
    ensures CutOut(sections, s, starts, ends)
  {
    sections := [];
    for i := 0 to |starts|
      invariant |sections| == i && forall k :: 0 <= k < i ==> sections[k] == Between(s, starts[k], ends[k])
    {
      sections := sections + [Between(s, starts[i], ends[i])];
    }
  }

  /** There is one section for each maximal run of samples in range, in order: the points of the series from the time
      of the run's first sample to that of its last. */
  ghost predicate CutByRuns(sections: seq<seq<Point>>, series: seq<Point>, s: seq<Sample>, limit: real,
                            runs: seq<(int, int)>) {
    && |runs| == |sections|
    && (forall i :: 0 <= i < |runs| ==>
          MaximalRun(s, limit, runs[i].0, runs[i].1)
          && sections[i] == Between(series, s[runs[i].0].t, s[runs[i].1].t))
    && (forall i, j :: 0 <= i < j < |runs| ==> runs[i].1 < runs[j].0)
    && (forall k :: 0 <= k < |s| ==> (s[k].value <= limit <==> InOneOf(runs, k)))
  }

  ghost predicate InOneOf(runs: seq<(int, int)>, k: int) {
    exists i :: 0 <= i < |runs| && runs[i].0 <= k <= runs[i].1
  }

  ghost function Runs(s: seq<Sample>, limit: real): (runs: seq<(int, int)>)
    requires s != [] && |Starts(s, limit)| <= |Ends(s, limit)|
  {
    seq(|Starts(s, limit)|, i requires 0 <= i < |Starts(s, limit)| =>
      (Starts(s, limit)[i] as int, Ends(s, limit)[i] as int))
  }

  lemma RunAt(s: seq<Sample>, limit: real, i: nat)
    requires s != [] && |Starts(s, limit)| <= |Ends(s, limit)| && i < |Starts(s, limit)|
    ensures Runs(s, limit)[i].0 == Starts(s, limit)[i]
    ensures i < |InnerEnds(s, limit)| ==> Runs(s, limit)[i].1 == InnerEnds(s, limit)[i]
    ensures i >= |InnerEnds(s, limit)| ==> Runs(s, limit)[i].1 == |s| - 1
  {
  }

  lemma RunFor(s: seq<Sample>, limit: real, starts: seq<nat>, inner: seq<nat>, k: nat) returns (i: nat)
    requires PairedUp(s, limit, starts, inner) && k < |s| && InRange(s, limit, k)
    ensures i < |starts| && starts[i] <= k && (i < |inner| ==> k <= inner[i])
  {
    i :| 0 <= i < |starts| && starts[i] <= k < |s| && (i < |inner| ==> k <= inner[i]);
  }

  lemma RunHasSample(s: seq<Sample>, limit: real, k: nat)
    requires s != [] && |Starts(s, limit)| <= |Ends(s, limit)| && k < |s| && InRange(s, limit, k)
    ensures InOneOf(Runs(s, limit), k)
  {
    ScansPairUp(s, limit);
    var i := RunFor(s, limit, Starts(s, limit), InnerEnds(s, limit), k);
    RunAt(s, limit, i);
    assert Runs(s, limit)[i].0 <= k <= Runs(s, limit)[i].1;
  }

  lemma RunIsMaximal(s: seq<Sample>, limit: real, i: nat)
    requires s != [] && |Starts(s, limit)| <= |Ends(s, limit)| && i < |Runs(s, limit)|
    ensures MaximalRun(s, limit, Runs(s, limit)[i].0, Runs(s, limit)[i].1)
  {
    SectionsAreMaximalRuns(s, limit);
    assert Listed(Starts(s, limit), Ends(s, limit), Runs(s, limit)[i].0, Runs(s, limit)[i].1);
  }

  lemma SampleInRun(s: seq<Sample>, limit: real, k: nat)
    requires s != [] && k < |s| && |Starts(s, limit)| <= |Ends(s, limit)|
    ensures s[k].value <= limit <==> InOneOf(Runs(s, limit), k)
  {
    var runs := Runs(s, limit);
    if s[k].value <= limit {
      RunHasSample(s, limit, k);
    }
    if InOneOf(runs, k) {
      var i :| 0 <= i < |runs| && runs[i].0 <= k <= runs[i].1;
      RunIsMaximal(s, limit, i);
      assert InRange(s, limit, k);
    }
  }

  /** Cutting by the two lists of times is cutting by the maximal runs. */
  lemma CutOutIsByRuns(sections: seq<seq<Point>>, series: seq<Point>, s: seq<Sample>, limit: real)
    requires s != [] && Indices(s, Starts(s, limit)) && Indices(s, Ends(s, limit))
    requires CutOut(sections, series, TimesAt(s, Starts(s, limit)), TimesAt(s, Ends(s, limit)))
    ensures |Starts(s, limit)| <= |Ends(s, limit)| && CutByRuns(sections, series, s, limit, Runs(s, limit))
  {
    SectionsAreMaximalRuns(s, limit);
    var runs := Runs(s, limit);
    forall i | 0 <= i < |runs|
      ensures MaximalRun(s, limit, runs[i].0, runs[i].1)
      ensures sections[i] == Between(series, s[runs[i].0].t, s[runs[i].1].t)
    {
      RunIsMaximal(s, limit, i);
    }
    forall k | 0 <= k < |s| ensures s[k].value <= limit <==> InOneOf(runs, k) {
      SampleInRun(s, limit, k);
    }
  }

  /** get_aoi_ts_sections_by_max_hop, on the pair's series of ages and of hop counts. */
  method SectionsByMaxHop(aoiTs: seq<Point>, hopsTs: seq<Sample>, maxHops: real) returns (sections: seq<seq<Point>>)
    ensures hopsTs == [] ==> sections == []
    ensures hopsTs != [] ==>
              Indices(hopsTs, Starts(hopsTs, maxHops)) && Indices(hopsTs, Ends(hopsTs, maxHops))
              && CutOut(sections, aoiTs, TimesAt(hopsTs, Starts(hopsTs, maxHops)),
                        TimesAt(hopsTs, Ends(hopsTs, maxHops)))
    ensures hopsTs != [] ==> exists runs :: CutByRuns(sections, aoiTs, hopsTs, maxHops, runs)
  {
    if |hopsTs| == 0 {
      return [];
    }
    var sectionStarts := ScanStarts(hopsTs, maxHops);
    var sectionEnds := ScanEnds(hopsTs, maxHops);
    SectionsAreMaximalRuns(hopsTs, maxHops);
    sections := CutSections(aoiTs, sectionStarts, sectionEnds);
    CutOutIsByRuns(sections, aoiTs, hopsTs, maxHops);
  }

  /** The samples from a given time on. */
  function NotBefore(s: seq<Sample>, from: real): seq<Sample> {
    if s == [] then []
    else NotBefore(s[..|s|-1], from) + if s[|s|-1].t >= from then [s[|s|-1]] else []
  }

  /** All of these samples, and none that is earlier. */
  lemma {:induction false} NotBeforeCount(s: seq<Sample>, from: real, x: Sample)
    ensures multiset(NotBefore(s, from))[x] == if x.t >= from then multiset(s)[x] else 0
  {
    if s != [] {
      var n := |s| - 1;
      NotBeforeCount(s[..n], from, x);
      assert s == s[..n] + [s[n]];
    }
  }

  /** s[k..] are the samples that are not before a time. */
  ghost predicate TailFrom(s: seq<Sample>, from: real, k: nat) {
    k <= |s| && forall i :: 0 <= i < |s| ==> (i < k <==> s[i].t < from)
  }

  lemma TailMore(s: seq<Sample>, x: Sample, from: real, k: nat)
    requires OrderedTimes(s + [x]) && TailFrom(s, from, k)
    ensures x.t < from ==> TailFrom(s + [x], from, |s| + 1)
    ensures x.t >= from ==> TailFrom(s + [x], from, k) && (s + [x])[k..] == s[k..] + [x]
  {
    assert forall i :: 0 <= i < |s| ==> (s + [x])[i] == s[i] && s[i].t <= (s + [x])[|s|].t;
  }

  lemma EarlierKeepsNone(s: seq<Sample>, from: real, k: nat)
    requires TailFrom(s, from, k) && k == |s|
    ensures NotBefore(s, from) == []
  {
    forall i | 0 <= i < |s| ensures s[i].t < from {}
    NoneKept(s, from);
  }

  lemma {:induction false} NoneKept(s: seq<Sample>, from: real)
    requires forall i :: 0 <= i < |s| ==> s[i].t < from
    ensures NotBefore(s, from) == []
  {
    if s != [] {
      NoneKept(s[..|s|-1], from);
    }
  }

  lemma KeepsLast(s: seq<Sample>, from: real)
    requires s != [] && s[|s|-1].t >= from
    ensures NotBefore(s, from) == NotBefore(s[..|s|-1], from) + [s[|s|-1]]
  {
  }

  /** Of samples in time order, they are the last ones. */
  lemma {:induction false} NotBeforeIsTail(s: seq<Sample>, from: real) returns (k: nat)
    requires OrderedTimes(s)
    ensures TailFrom(s, from, k) && NotBefore(s, from) == s[k..]
  {
    if s == [] {
      k := 0;
    } else {
      var n := |s| - 1;
      k := NotBeforeIsTail(s[..n], from);
      assert s == s[..n] + [s[n]];
      TailMore(s[..n], s[n], from, k);
      if s[n].t < from {
        k := n + 1;
        EarlierKeepsNone(s, from, k);
      } else {
        KeepsLast(s, from);
      }
    }
  }

  predicate NoneInRange(s: seq<Sample>, limit: real) {
    forall i :: 0 <= i < |s| ==> s[i].value > limit
  }

  /** The times at which the series is interpolated: those of the runs' first samples and of their last ones, and of
      the last sample of all if it is out of range. */
  ghost function RunTimes(s: seq<Sample>, limit: real, runs: seq<(int, int)>): seq<real>
    requires forall i :: 0 <= i < |runs| ==> 0 <= runs[i].0 < |s| && 0 <= runs[i].1 < |s|
  {
    seq(|runs|, i requires 0 <= i < |runs| => s[runs[i].0].t)
    + (seq(|runs|, i requires 0 <= i < |runs| => s[runs[i].1].t)
       + if s != [] && s[|s|-1].value > limit then [s[|s|-1].t] else [])
  }

  lemma EndTimes(s: seq<Sample>, limit: real, ks: seq<nat>)
    requires s != [] && Indices(s, Ends(s, limit)) && |Ends(s, limit)| == |Starts(s, limit)| + |ks| && |ks| <= 1
    requires Indices(s, Starts(s, limit)) && (ks != [] ==> ks[0] == |s| - 1)
    ensures TimesAt(s, Ends(s, limit))
         == seq(|Runs(s, limit)|, i requires 0 <= i < |Runs(s, limit)| => s[Runs(s, limit)[i].1].t) + TimesAt(s, ks)
  {
    assert Ends(s, limit)[|Ends(s, limit)|-1] == |s| - 1;
  }

  lemma SectionTimes(s: seq<Sample>, limit: real)
    requires s != [] && Indices(s, Starts(s, limit)) && Indices(s, Ends(s, limit))
    requires |Starts(s, limit)| <= |Ends(s, limit)|
    ensures forall i :: 0 <= i < |Runs(s, limit)| ==> 0 <= Runs(s, limit)[i].0 < |s| && 0 <= Runs(s, limit)[i].1 < |s|
    ensures TimesAt(s, Starts(s, limit)) + TimesAt(s, Ends(s, limit)) == RunTimes(s, limit, Runs(s, limit))
  {
    var runs := Runs(s, limit);
    SectionsAreMaximalRuns(s, limit);
    assert TimesAt(s, Starts(s, limit)) == seq(|runs|, i requires 0 <= i < |runs| => s[runs[i].0].t);
    if s[|s|-1].value > limit {
      EndTimes(s, limit, [|s| - 1]);
      assert TimesAt(s, [|s| - 1]) == [s[|s|-1].t];
    } else {
      EndTimes(s, limit, []);
      assert TimesAt(s, []) == [];
    }
  }

  /** The sections by distance, in terms of the runs of those samples that are not before the first age: of the
      samples from the k-th on. */
  ghost predicate DistCut(sections: seq<seq<Point>>, aoiTs: seq<Point>, distTs: seq<Sample>, R: real, k: nat,
                          runs: seq<(int, int)>)
    requires aoiTs != []
  {
    && TailFrom(distTs, aoiTs[0].t, k)
    && (forall i :: 0 <= i < |runs| ==> MaximalRun(distTs[k..], R, runs[i].0, runs[i].1))
    && CutByRuns(sections, Interpolated(RunTimes(distTs[k..], R, runs), aoiTs), distTs[k..], R, runs)
  }

  lemma DistCutByRuns(sections: seq<seq<Point>>, aoiTs: seq<Point>, distTs: seq<Sample>, R: real)
    requires aoiTs != [] && OrderedTimes(distTs)
    requires NotBefore(distTs, aoiTs[0].t) == [] ==> sections == []
    requires var ds := NotBefore(distTs, aoiTs[0].t);
             ds != [] ==>
               Indices(ds, Starts(ds, R)) && Indices(ds, Ends(ds, R))
               && var starts, ends := TimesAt(ds, Starts(ds, R)), TimesAt(ds, Ends(ds, R));
                  CutOut(sections, Interpolated(starts + ends, aoiTs), starts, ends)
    ensures exists k, runs :: DistCut(sections, aoiTs, distTs, R, k, runs)
  {
    var k := NotBeforeIsTail(distTs, aoiTs[0].t);
    var ds := distTs[k..];
    if ds == [] {
      assert DistCut(sections, aoiTs, distTs, R, k, []);
    } else {
      SectionsAreMaximalRuns(ds, R);
      SectionTimes(ds, R);
      var starts, ends := TimesAt(ds, Starts(ds, R)), TimesAt(ds, Ends(ds, R));
      CutOutIsByRuns(sections, Interpolated(starts + ends, aoiTs), ds, R);
      assert DistCut(sections, aoiTs, distTs, R, k, Runs(ds, R));
    }
  }

  /** get_aoi_ts_sections_by_max_dist, on the pair's series of ages and of distances. */
  method SectionsByMaxDist(aoiTs: seq<Point>, distTs: seq<Sample>, R: real) returns (sections: seq<seq<Point>>)
    ensures aoiTs == [] || NoneInRange(NotBefore(distTs, aoiTs[0].t), R) ==> sections == []
    ensures aoiTs != [] && NotBefore(distTs, aoiTs[0].t) != [] ==>
              var ds := NotBefore(distTs, aoiTs[0].t);
              Indices(ds, Starts(ds, R)) && Indices(ds, Ends(ds, R))
              && var starts, ends := TimesAt(ds, Starts(ds, R)), TimesAt(ds, Ends(ds, R));
                 CutOut(sections, Interpolated(starts + ends, aoiTs), starts, ends)
    ensures aoiTs != [] && OrderedTimes(distTs) ==> exists k, runs :: DistCut(sections, aoiTs, distTs, R, k, runs)
  {
    if |aoiTs| == 0 {
      return [];
    }
    sections := SectionsFrom(aoiTs, NotBefore(distTs, aoiTs[0].t), R);
    if OrderedTimes(distTs) {
      DistCutByRuns(sections, aoiTs, distTs, R);
    }
  }

  /** Its part after the filter. */
  method SectionsFrom(aoiTs: seq<Point>, ds: seq<Sample>, R: real) returns (sections: seq<seq<Point>>)
    ensures NoneInRange(ds, R) ==> sections == []
    ensures ds != [] ==>
              Indices(ds, Starts(ds, R)) && Indices(ds, Ends(ds, R))
              && var starts, ends := TimesAt(ds, Starts(ds, R)), TimesAt(ds, Ends(ds, R));
                 CutOut(sections, Interpolated(starts + ends, aoiTs), starts, ends)
  {
    if |ds| == 0 {
      return [];
    }
    ScanIndices(ds, R);
    SectionsAreMaximalRuns(ds, R);
    if NoneInRange(ds, R) {
      NoStarts(ds, R);
      return [];
    }
    var sectionStarts := ScanStarts(ds, R);
    var sectionEnds := ScanEnds(ds, R);
    var series := InterpolateAoi(sectionStarts + sectionEnds, aoiTs);
    sections := CutSections(series, sectionStarts, sectionEnds);
  }

  lemma {:induction false} NoStarts(s: seq<Sample>, limit: real)
    requires NoneInRange(s, limit)
    ensures Starts(s, limit) == []
  {
    if s != [] {
      NoStarts(s[..|s|-1], limit);
    }
  }
}
