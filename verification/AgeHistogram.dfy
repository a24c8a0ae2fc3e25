/**
 analysis_scripts/parse_results_v3.py: the histogram of ages drawn by `extract_aoi_distribution`, in
 which every climb of a series adds one to each bin it passes through.
 */
module AgeHistogram {
  import opened AgeSeries
  import opened Basics

  const T_RES := 20.0

  const BINS := 10099

  /** The k-th entry of bin_ends. */
  function BinEnd(k: nat): real {
    T_RES * (k + 1) as real
  }

  /** There is a bin for every multiple of T_RES that is below T_MAX. */
  lemma BinsEndBelowMax(k: nat)
    ensures k < BINS <==> BinEnd(k) < T_MAX
  {
    assert BinEnd(BINS - 1) == 201980.0;
  }

  ghost predicate IsBinEnd(x: real) {
    exists k: nat :: k < BINS && BinEnd(k) == x
  }

  /** The bins end at the multiples of 20 that are below T_MAX, 0 excepted, and only there. */
  lemma BinEndsAre(j: int)
    ensures IsBinEnd(20.0 * j as real) <==> 1 <= j && 20.0 * j as real < 202000.0
  {
    var x := 20.0 * j as real;
    if k: nat :| k < BINS && BinEnd(k) == x {
      BinsEndBelowMax(k);
      assert k + 1 == j;
    }
    if 1 <= j && x < T_MAX {
      BinsEndBelowMax(j - 1);
      assert BinEnd(j - 1) == x;
    }
  }

  lemma OnlyMultiples(x: real) returns (j: int)
    requires IsBinEnd(x)
    ensures x == 20.0 * j as real
  {
    var k: nat :| k < BINS && BinEnd(k) == x;
    j := k + 1;
  }

  predicate InRect(lo: real, hi: real, k: nat) {
    lo <= BinEnd(k) < hi
  }

  /** The time that n hits stand for. */
  ghost function Mass(n: int): real {
    T_RES * n as real
  }

  /** How many of the first n bins a rectangle covers. */
  ghost function Covered(lo: real, hi: real, n: nat): nat {
    if n == 0 then 0 else Covered(lo, hi, n - 1) + One(InRect(lo, hi, n - 1))
  }

  /** How often bin k is covered by the rectangles between neighbouring points. */
  ghost function Hits(s: seq<Point>, k: nat): nat {
    if |s| < 2 then 0
    else Hits(s[..|s|-1], k) + One(InRect(s[|s|-2].age, s[|s|-1].age, k))
  }

  ghost function Sum(bins: seq<int>): int {
    if bins == [] then 0 else Sum(bins[..|bins|-1]) + bins[|bins|-1]
  }

  /** All the hits of a series, rectangle by rectangle. */
  ghost function AllHits(s: seq<Point>): nat {
    if |s| < 2 then 0
    else AllHits(s[..|s|-1]) + Covered(s[|s|-2].age, s[|s|-1].age, BINS)
  }

  /** Adds one to each bin whose end a rectangle covers. */
  method AddRect(bins: array<int>, lo: real, hi: real)
    requires bins.Length == BINS
    modifies bins
    ensures forall k :: 0 <= k < BINS ==> bins[k] == old(bins[k]) + One(InRect(lo, hi, k))
    ensures forall k :: 0 <= k < BINS ==>
              bins[k] == if lo <= 20.0 * (k + 1) as real < hi then old(bins[k]) + 1 else old(bins[k])
  {
    for i := 0 to BINS
      invariant forall k :: 0 <= k < i ==> bins[k] == old(bins[k]) + One(InRect(lo, hi, k))
      invariant forall k :: i <= k < BINS ==> bins[k] == old(bins[k])
    {
      if lo <= BinEnd(i) < hi {
        bins[i] := bins[i] + 1;
      }
    }
  }

  /** The loop over the rectangles of one series; the one between its last two points is left out. */
  method AddSeries(bins: array<int>, aoiTs: seq<Point>)
    requires bins.Length == BINS
    modifies bins
    ensures aoiTs == [] ==> bins[..] == old(bins[..])
    ensures aoiTs != [] ==> forall k :: 0 <= k < BINS ==> bins[k] == old(bins[k]) + Hits(aoiTs[..|aoiTs|-1], k)
    ensures aoiTs != [] ==> Sum(bins[..]) == old(Sum(bins[..])) + AllHits(aoiTs[..|aoiTs|-1])
  {
    if |aoiTs| > 0 {
      ghost var drawn := aoiTs[..|aoiTs|-1];
      var i := 0;
      while i < |aoiTs| - 2
        invariant 0 <= i && (i <= |aoiTs| - 2 || i == 0)
        invariant forall k :: 0 <= k < BINS ==> bins[k] == old(bins[k]) + (if i == 0 then 0 else Hits(aoiTs[..i+1], k))
      {
        assert aoiTs[..i+2][..i+1] == aoiTs[..i+1];
        AddRect(bins, aoiTs[i].age, aoiTs[i+1].age);
        i := i + 1;
      }
      assert |aoiTs| > 2 ==> aoiTs[..i+1] == drawn;
      HitsAddUp(old(bins[..]), bins[..], drawn);
    }
  }

  // ---------- adding up by bin or by rectangle

  lemma {:induction false} SumPlus(a: seq<int>, b: seq<int>, lo: real, hi: real)
    requires |a| == |b| && forall k :: 0 <= k < |a| ==> b[k] == a[k] + One(InRect(lo, hi, k))
    ensures Sum(b) == Sum(a) + Covered(lo, hi, |a|)
  {
    if a != [] {
      SumPlus(a[..|a|-1], b[..|b|-1], lo, hi);
    }
  }

  lemma {:induction false} HitsAddUp(a: seq<int>, b: seq<int>, s: seq<Point>)
    requires |a| == |b| == BINS && forall k :: 0 <= k < BINS ==> b[k] == a[k] + Hits(s, k)
    ensures Sum(b) == Sum(a) + AllHits(s)
    decreases |s|
  {
    if |s| < 2 {
      assert a == b;
    } else {
      var m := seq(BINS, k requires 0 <= k < BINS => a[k] + Hits(s[..|s|-1], k));
      HitsAddUp(a, m, s[..|s|-1]);
      SumPlus(m, b, s[|s|-2].age, s[|s|-1].age);
    }
  }

  /** The i-th step of a series passes through the end of bin k. */
  predicate Passes(s: seq<Point>, i: int, k: nat) {
    0 <= i < |s| - 1 && s[i].age <= 20.0 * (k + 1) as real < s[i+1].age
  }

  ghost function Passing(s: seq<Point>, k: nat): set<int> {
    set i | 0 <= i < |s| && Passes(s, i, k)
  }

  lemma PassingMore(s: seq<Point>, p: Point, k: nat)
    requires s != []
    ensures |Passing(s + [p], k)| == |Passing(s, k)| + One(InRect(s[|s|-1].age, p.age, k))
  {
    var n := |s|;
    assert forall i :: Passes(s + [p], i, k) <==> Passes(s, i, k) || (i == n - 1 && InRect(s[n-1].age, p.age, k));
    if InRect(s[n-1].age, p.age, k) {
      assert Passing(s + [p], k) == Passing(s, k) + {n - 1};
    } else {
      assert Passing(s + [p], k) == Passing(s, k);
    }
  }

  lemma {:induction false} HitsArePassing(s: seq<Point>, k: nat)
    ensures Hits(s, k) == |Passing(s, k)|
  {
    if |s| >= 2 {
      var n := |s| - 1;
      HitsArePassing(s[..n], k);
      assert s == s[..n] + [s[n]];
      PassingMore(s[..n], s[n], k);
    }
  }

  // ---------- a climb covers its height, give or take one bin

  /** How many of the first n bin ends are below x. */
  ghost function EndsBelow(x: real, n: nat): nat {
    if n == 0 then 0 else EndsBelow(x, n - 1) + One(BinEnd(n - 1) < x)
  }

  lemma {:induction false} EndsBelowIs(x: real, n: nat)
    ensures EndsBelow(x, n) <= n
    ensures EndsBelow(x, n) > 0 ==> BinEnd(EndsBelow(x, n) - 1) < x
    ensures EndsBelow(x, n) < n ==> x <= BinEnd(EndsBelow(x, n))
  {
    if n > 0 {
      EndsBelowIs(x, n - 1);
    }
  }

  lemma {:induction false} CoveredIsDifference(lo: real, hi: real, n: nat)
    ensures lo <= hi ==> Covered(lo, hi, n) == EndsBelow(hi, n) - EndsBelow(lo, n)
    ensures hi <= lo ==> Covered(lo, hi, n) == 0
  {
    if n > 0 {
      CoveredIsDifference(lo, hi, n - 1);
    }
  }

  /** x is within d of y. */
  ghost predicate Near(x: real, y: real, d: real) {
    y - d <= x <= y + d
  }

  lemma ClimbCovers(lo: real, hi: real)
    requires 0.0 <= lo <= hi <= T_MAX
    ensures Near(Mass(Covered(lo, hi, BINS)), hi - lo, T_RES)
  {
    CoveredIsDifference(lo, hi, BINS);
    EndsBelowIs(lo, BINS);
    EndsBelowIs(hi, BINS);
    var a, b := EndsBelow(lo, BINS), EndsBelow(hi, BINS);
    assert Mass(a) <= lo <= Mass(a) + T_RES;
    assert Mass(b) <= hi <= Mass(b) + T_RES;
  }

  // ---------- conservation

  /** Receptions in time order, none before it was sent, and none before time 0. */
  ghost predicate Plausible(rs: seq<Point>) {
    && SortedByTime(rs)
    && forall i :: 0 <= i < |rs| ==> 0.0 <= rs[i].age <= rs[i].t <= T_MAX
  }

  lemma {:induction false} NewestInRange(rs: seq<Point>)
    requires rs != [] && Plausible(rs)
    ensures 0.0 <= Newest(rs) <= rs[|rs|-1].t
  {
    if |rs| > 1 {
      NewestInRange(rs[..|rs|-1]);
    }
  }

  lemma AllHitsMore(s: seq<Point>, p: Point)
    requires s != []
    ensures AllHits(s + [p]) == AllHits(s) + Covered(s[|s|-1].age, p.age, BINS)
  {
    assert (s + [p])[..|s|] == s;
  }

  /** A fall after the climb hits nothing. */
  lemma ClimbAndFallHits(s: seq<Point>, rise: Point, r: Point)
    requires s != [] && r.age <= rise.age
    ensures AllHits(s + [rise, r]) == AllHits(s) + Covered(s[|s|-1].age, rise.age, BINS)
  {
    AllHitsMore(s, rise);
    AllHitsMore(s + [rise], r);
    CoveredIsDifference(rise.age, r.age, BINS);
    assert s + [rise, r] == s + [rise] + [r];
  }

  lemma FreshHits(s: seq<Point>, front: seq<Point>, r: Point)
    requires s != [] && front != [] && Generated(r) > Newest(front)
    ensures AllHits(s + AgeBlock(front, r)) == AllHits(s) + Covered(s[|s|-1].age, AgeFound(front, r), BINS)
  {
    FreshBlock(front, r);
    ClimbAndFallHits(s, Point(r.t, AgeFound(front, r)), r);
  }

  lemma StaleHits(s: seq<Point>, front: seq<Point>, r: Point)
    requires s != [] && front != [] && Generated(r) <= Newest(front)
    ensures AllHits(s + AgeBlock(front, r)) == AllHits(s) + Covered(s[|s|-1].age, AgeFound(front, r), BINS)
  {
    StaleBlock(front, r);
    AllHitsMore(s, Point(r.t, AgeFound(front, r)));
  }

  lemma BlockHits(s: seq<Point>, front: seq<Point>, r: Point)
    requires s != [] && front != []
    ensures AllHits(s + AgeBlock(front, r)) == AllHits(s) + Covered(s[|s|-1].age, AgeFound(front, r), BINS)
  {
    if Generated(r) > Newest(front) {
      FreshHits(s, front, r);
    } else {
      StaleHits(s, front, r);
    }
  }

  /** One reception more: its hits stand for the time since the reception before. */
  lemma StepHits(s: seq<Point>, front: seq<Point>, r: Point)
    requires s != [] && front != [] && 0.0 <= Newest(front) && r.t <= T_MAX
    requires 0.0 <= s[|s|-1].age == s[|s|-1].t - Newest(front) && s[|s|-1].t <= r.t
    ensures Near(Mass(AllHits(s + AgeBlock(front, r)) - AllHits(s)), r.t - s[|s|-1].t, T_RES)
  {
    BlockHits(s, front, r);
    ClimbCovers(s[|s|-1].age, AgeFound(front, r));
  }

  lemma PlausibleFront(front: seq<Point>, r: Point)
    requires Plausible(front + [r])
    ensures Plausible(front) && (front != [] ==> front[|front|-1].t <= r.t <= T_MAX)
  {
    assert (front + [r])[|front|] == r;
    assert forall i :: 0 <= i < |front| ==> (front + [r])[i] == front[i];
  }

  /** The hits of a series stand for its duration, up to one T_RES per climb. */
  lemma {:induction false} SeriesHits(rs: seq<Point>)
    requires rs != [] && Plausible(rs)
    ensures Near(Mass(AllHits(Sawtooth(rs))), rs[|rs|-1].t - rs[0].t, Mass(|rs| - 1))
  {
    if |rs| > 1 {
      var n := |rs| - 1;
      var front, r := rs[..n], rs[n];
      assert rs == front + [r];
      PlausibleFront(front, r);
      SeriesHits(front);
      LastIsAge(front);
      NewestInRange(front);
      SawtoothMore(front, r);
      StepHits(Sawtooth(front), front, r);
    }
  }

  /** The hits that a series of ages loses because its last step is not drawn. */
  ghost function LostHits(s: seq<Point>): int {
    if s == [] then 0 else AllHits(s) - AllHits(s[..|s|-1])
  }

  /** Nothing is lost exactly when no bin ends between the last two ages, as when the last step is a fall;
      a last climb is lost altogether. */
  lemma LastStepLost(s: seq<Point>)
    requires |s| > 1 && 0.0 <= s[|s|-2].age <= T_MAX && 0.0 <= s[|s|-1].age <= T_MAX
    ensures var lo, hi := s[|s|-2].age, s[|s|-1].age;
            && (LostHits(s) == 0 <==> forall k :: 0 <= k < BINS ==> !InRect(lo, hi, k))
            && (hi <= lo ==> LostHits(s) == 0)
            && (lo <= hi ==> Near(Mass(LostHits(s)), hi - lo, T_RES))
  {
    var lo, hi := s[|s|-2].age, s[|s|-1].age;
    NoneCovered(lo, hi, BINS);
    CoveredIsDifference(lo, hi, BINS);
    if lo <= hi {
      ClimbCovers(lo, hi);
    }
  }

  /** A section that ends with a climb of 100 loses the hits of at least 80. */
  lemma LastClimbLost(s: seq<Point>)
    requires s == [Point(0.0, 0.0), Point(100.0, 100.0)]
    ensures LostHits(s) != 0 && Mass(LostHits(s)) >= 80.0
  {
    LastStepLost(s);
    assert InRect(0.0, 100.0, 0);
  }

  lemma {:induction false} NoneCovered(lo: real, hi: real, n: nat)
    ensures Covered(lo, hi, n) == 0 <==> forall k :: 0 <= k < n ==> !InRect(lo, hi, k)
  {
    if n > 0 {
      NoneCovered(lo, hi, n - 1);
    }
  }

  /** The series of a pair, with its sentinel, loses nothing; without the sentinel, as in a section cut at
      the last reception, it loses the climb to that reception unless the reception brings news. */
  lemma SentinelSavesLastStep(front: seq<Point>, r: Point)
    requires front != [] && Plausible(front + [r]) && r.t < T_MAX
    ensures LostHits(Sawtooth(WithSentinel(front + [r]))) == 0
    ensures LostHits(Sawtooth(front + [r]))
         == if Generated(r) > Newest(front) then 0
            else Covered(Sawtooth(front)[|Sawtooth(front)|-1].age, AgeFound(front, r), BINS)
  {
    var rs := front + [r];
    PlausibleFront(front, r);
    NewestInRange(front);
    NewestInRange(rs);
    SentinelFallsToZero(rs);
    FallLosesNothing(Sawtooth(rs) + [Point(T_MAX, T_MAX - Newest(rs))], Point(T_MAX, 0.0));
    assert Sawtooth(WithSentinel(rs))
        == Sawtooth(rs) + [Point(T_MAX, T_MAX - Newest(rs))] + [Point(T_MAX, 0.0)];
    LastReceptionLost(front, r);
  }

  lemma FallLosesNothing(s: seq<Point>, p: Point)
    requires s != [] && p.age <= s[|s|-1].age
    ensures LostHits(s + [p]) == 0
  {
    AllHitsMore(s, p);
    CoveredIsDifference(s[|s|-1].age, p.age, BINS);
    assert (s + [p])[..|s|] == s;
  }

  lemma LastReceptionLost(front: seq<Point>, r: Point)
    requires front != []
    ensures LostHits(Sawtooth(front + [r]))
         == if Generated(r) > Newest(front) then 0
            else Covered(Sawtooth(front)[|Sawtooth(front)|-1].age, AgeFound(front, r), BINS)
  {
    var s, rise := Sawtooth(front), Point(r.t, AgeFound(front, r));
    SawtoothMore(front, r);
    if Generated(r) > Newest(front) {
      FreshBlock(front, r);
      FallLosesNothing(s + [rise], r);
      assert s + [rise, r] == s + [rise] + [r];
    } else {
      StaleBlock(front, r);
      AllHitsMore(s, rise);
      assert (s + [rise])[..|s|] == s;
    }
  }

  /** The bins of one pair hold the time from its first reception to T_MAX, up to one T_RES per climb. */
  lemma HistogramConservation(rs: seq<Point>)
    requires rs != [] && Plausible(rs) && rs[|rs|-1].t < T_MAX
    ensures var s := Sawtooth(WithSentinel(rs));
            s != [] && Near(Mass(AllHits(s[..|s|-1])), T_MAX - rs[0].t, Mass(|rs|))
  {
    var rise := Point(T_MAX, T_MAX - Newest(rs));
    var s := Sawtooth(rs);
    NewestInRange(rs);
    SentinelFallsToZero(rs);
    assert Sawtooth(WithSentinel(rs))[..|s|+1] == s + [rise];
    SeriesHits(rs);
    LastIsAge(rs);
    AllHitsMore(s, rise);
    ClimbCovers(s[|s|-1].age, rise.age);
  }

  // ---------- the loop over all pairs

  /** The receptions of one pair in the simulation, if any. */
  ghost predicate Observed(rs: seq<Point>) {
    Plausible(rs) && (rs != [] ==> rs[|rs|-1].t < T_MAX)
  }

  /** What the receptions of a pair add to one bin, and to all. */
  ghost function PairHits(rs: seq<Point>, k: nat): nat {
    var s := Sawtooth(WithSentinel(rs));
    if s == [] then 0 else Hits(s[..|s|-1], k)
  }

  ghost function AllPairHits(rs: seq<Point>): nat {
    var s := Sawtooth(WithSentinel(rs));
    if s == [] then 0 else AllHits(s[..|s|-1])
  }

  /** How long the age of a pair is known. */
  ghost function AgeTime(rs: seq<Point>): real {
    if rs == [] then 0.0 else T_MAX - rs[0].t
  }

  ghost function TotalHits(pairs: seq<seq<Point>>, k: nat): nat {
    if pairs == [] then 0 else TotalHits(pairs[..|pairs|-1], k) + PairHits(pairs[|pairs|-1], k)
  }

  ghost function TotalTime(pairs: seq<seq<Point>>): real {
    if pairs == [] then 0.0 else TotalTime(pairs[..|pairs|-1]) + AgeTime(pairs[|pairs|-1])
  }

  ghost function TotalReceptions(pairs: seq<seq<Point>>): nat {
    if pairs == [] then 0 else TotalReceptions(pairs[..|pairs|-1]) + |pairs[|pairs|-1]|
  }

  ghost predicate AllObserved(pairs: seq<seq<Point>>) {
    forall i :: 0 <= i < |pairs| ==> Observed(pairs[i])
  }

  /** The sum of the bins stands for the time in which the ages of these pairs are known. */
  ghost predicate Conserved(pairs: seq<seq<Point>>, sum: int) {
    Near(Mass(sum), TotalTime(pairs), Mass(TotalReceptions(pairs)))
  }

  lemma PairConservation(rs: seq<Point>)
    requires Observed(rs)
    ensures Near(Mass(AllPairHits(rs)), AgeTime(rs), Mass(|rs|))
  {
    if rs != [] {
      HistogramConservation(rs);
    }
  }

  lemma ConservedMore(pairs: seq<seq<Point>>, rs: seq<Point>, sum: int)
    requires Observed(rs) && Conserved(pairs, sum)
    ensures Conserved(pairs + [rs], sum + AllPairHits(rs))
  {
    PairConservation(rs);
    assert (pairs + [rs])[..|pairs|] == pairs;
    NearSum(sum, AllPairHits(rs), TotalTime(pairs), AgeTime(rs), TotalReceptions(pairs), |rs|);
  }

  lemma NearSum(m: int, n: int, x: real, y: real, a: nat, b: nat)
    requires Near(Mass(m), x, Mass(a)) && Near(Mass(n), y, Mass(b))
    ensures Near(Mass(m + n), x + y, Mass(a + b))
  {
  }

  lemma TotalHitsMore(pairs: seq<seq<Point>>, rs: seq<Point>, k: nat)
    ensures TotalHits(pairs + [rs], k) == TotalHits(pairs, k) + PairHits(rs, k)
  {
    assert (pairs + [rs])[..|pairs|] == pairs;
  }

  lemma BinsMore(pairs: seq<seq<Point>>, rs: seq<Point>, before: seq<int>, after: seq<int>)
    requires |before| == |after| == BINS
    requires forall k :: 0 <= k < BINS ==> before[k] == TotalHits(pairs, k) && after[k] == before[k] + PairHits(rs, k)
    ensures forall k :: 0 <= k < BINS ==> after[k] == TotalHits(pairs + [rs], k)
  {
    forall k | 0 <= k < BINS ensures after[k] == TotalHits(pairs + [rs], k) {
      TotalHitsMore(pairs, rs, k);
    }
  }

  lemma {:induction false} SumOfZeros(bins: seq<int>)
    requires forall k :: 0 <= k < |bins| ==> bins[k] == 0
    ensures Sum(bins) == 0
  {
    if bins != [] {
      SumOfZeros(bins[..|bins|-1]);
    }
  }

  /** One pair: get_aoi_ts, and the loop over the rectangles of its series. */
  method AddPair(bins: array<int>, rcvd: seq<Point>)
    requires bins.Length == BINS
    modifies bins
    ensures forall k :: 0 <= k < BINS ==> bins[k] == old(bins[k]) + PairHits(rcvd, k)
    ensures Sum(bins[..]) == old(Sum(bins[..])) + AllPairHits(rcvd)
  {
    var aoiTs := GetAoiTs(rcvd);
    AddSeries(bins, aoiTs);
    assert aoiTs == [] ==> forall k :: 0 <= k < BINS ==> bins[..][k] == old(bins[..])[k];
  }

  /** The histogram of all pairs, given the receptions of each. */
  method ExtractAoiDistribution(pairs: seq<seq<Point>>) returns (bins: array<int>)
    ensures bins.Length == BINS && fresh(bins)
    ensures forall k :: 0 <= k < BINS ==> bins[k] == TotalHits(pairs, k)
    ensures AllObserved(pairs) ==> Conserved(pairs, Sum(bins[..]))
  {
    bins := new int[BINS](_ => 0);
    SumOfZeros(bins[..]);
    for i := 0 to |pairs|
      invariant forall k :: 0 <= k < BINS ==> bins[k] == TotalHits(pairs[..i], k)
      invariant AllObserved(pairs) ==> Conserved(pairs[..i], Sum(bins[..]))
    {
      assert pairs[..i+1] == pairs[..i] + [pairs[i]];
      ghost var before := bins[..];
      AddPair(bins, pairs[i]);
      BinsMore(pairs[..i], pairs[i], before, bins[..]);
      assert forall k :: 0 <= k < BINS ==> bins[k] == bins[..][k];
      if AllObserved(pairs) {
        ConservedMore(pairs[..i], pairs[i], Sum(before));
      }
    }
    assert pairs[..|pairs|] == pairs;
  }
}
