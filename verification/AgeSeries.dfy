/**
 analysis_scripts/parse_results_v3.py: the age-of-information series of one (source, destination) pair,
 its peaks and its average; and the unfiltered series of analysis_scripts/parse_results_rdf.py.
 Times and ages are real numbers (milliseconds).
 */
module AgeSeries {
  import opened Sequences

  /** A point of an age series. A reception is also one: its time and the delay of the packet. */
  datatype Point = Point(t: real, age: real)

  const T_MAX := 202000.0

  /** The moment at which what is known at a point was generated. */
  function Generated(p: Point): real {
    p.t - p.age
  }

  ghost predicate SortedByTime(s: seq<Point>) {
    forall i, j :: 0 <= i < j < |s| ==> s[i].t <= s[j].t
  }

  ghost predicate StrictlyLater(s: seq<Point>) {
    forall i, j :: 0 <= i < j < |s| ==> s[i].t < s[j].t
  }

  // ---------- the definition of age

  /** The generation time of the newest packet received. */
  ghost function Newest(rs: seq<Point>): real
    requires rs != []
  {
    var g := Generated(rs[|rs|-1]);
    if |rs| == 1 then g
    else
      var before := Newest(rs[..|rs|-1]);
      if g > before then g else before
  }

  lemma {:induction false} NewestIsMax(rs: seq<Point>)
    requires rs != []
    ensures forall r :: r in rs ==> Generated(r) <= Newest(rs)
    ensures exists r :: r in rs && Generated(r) == Newest(rs)
  {
    var n := |rs| - 1;
    assert rs == rs[..n] + [rs[n]] && rs[n] in rs;
    if n > 0 {
      NewestIsMax(rs[..n]);
      var r :| r in rs[..n] && Generated(r) == Newest(rs[..n]);
      assert r in rs;
    }
  }

  /** The age at a reception, just before what it brings counts. */
  ghost function AgeFound(rs: seq<Point>, r: Point): real
    requires rs != []
  {
    r.t - Newest(rs)
  }

  /** What one more reception adds: the age it finds, and, if it brings news, the age it leaves. */
  ghost function AgeBlock(rs: seq<Point>, r: Point): seq<Point>
    requires rs != []
  {
    var rise := Point(r.t, AgeFound(rs, r));
    if Generated(r) > Newest(rs) then [rise, r] else [rise]
  }

  lemma FreshBlock(rs: seq<Point>, r: Point)
    requires rs != [] && Generated(r) > Newest(rs)
    ensures AgeBlock(rs, r) == [Point(r.t, AgeFound(rs, r)), r]
  {
  }

  lemma StaleBlock(rs: seq<Point>, r: Point)
    requires rs != [] && Generated(r) <= Newest(rs)
    ensures AgeBlock(rs, r) == [Point(r.t, AgeFound(rs, r))]
  {
  }

  /** The series by definition: at any time, age is that time minus the newest generation time so far. */
  ghost function Sawtooth(rs: seq<Point>): (s: seq<Point>)
    ensures s == [] <==> rs == []
  {
    if |rs| <= 1 then rs
    else
      var before := rs[..|rs|-1];
      Sawtooth(before) + AgeBlock(before, rs[|rs|-1])
  }

  /** The last point of the series has the age that the definition prescribes. */
  lemma LastIsAge(rs: seq<Point>)
    requires rs != []
    ensures var last := Sawtooth(rs)[|Sawtooth(rs)|-1];
            last.t == rs[|rs|-1].t && last.age == last.t - Newest(rs)
  {
  }

  /** Receptions with the artificial last one at T_MAX. */
  function WithSentinel(rs: seq<Point>): seq<Point> {
    if rs == [] then [] else rs + [Point(T_MAX, 0.0)]
  }

  /** The loop of get_aoi_ts, which looks at nothing but its own last point, computes that series. */
  method GetAoiTs(rcvd: seq<Point>) returns (result: seq<Point>)
    ensures result == Sawtooth(WithSentinel(rcvd))
    ensures result == [] <==> rcvd == []
  {
    var rcvdAoi := rcvd;
    if |rcvd| > 0 {
      rcvdAoi := rcvdAoi + [Point(T_MAX, 0.0)];
    }
    result := [];
    for i := 0 to |rcvdAoi|
      invariant result == Sawtooth(rcvdAoi[..i])
    {
      var entry := rcvdAoi[i];
      assert rcvdAoi[..i+1] == rcvdAoi[..i] + [entry];
      if |result| >= 1 {
        LastIsAge(rcvdAoi[..i]);
        var prevVal := result[|result|-1];
        var age := entry.t - prevVal.t;
        result := result + [Point(entry.t, prevVal.age + age)];
        if entry.age < prevVal.age + age {
          result := result + [entry];
        }
      } else {
        result := result + [entry];
      }
    }
    assert rcvdAoi[..|rcvdAoi|] == rcvdAoi;
  }

  // ---------- the shape of the series

  ghost predicate Rises(p: Point, q: Point) {
    q.age - p.age == q.t - p.t
  }

  ghost predicate Drops(p: Point, q: Point) {
    q.t == p.t && q.age < p.age
  }

  /** Every step climbs with slope one or falls straight down. */
  ghost predicate SawtoothShape(s: seq<Point>) {
    forall i :: 0 <= i < |s| - 1 ==> Rises(s[i], s[i+1]) || Drops(s[i], s[i+1])
  }

  lemma {:induction false} SawtoothHasShape(rs: seq<Point>)
    ensures SawtoothShape(Sawtooth(rs))
  {
    if |rs| > 1 {
      var n := |rs| - 1;
      SawtoothHasShape(rs[..n]);
      LastIsAge(rs[..n]);
    }
  }

  lemma {:induction false} SawtoothKeepsTimeOrder(rs: seq<Point>)
    requires SortedByTime(rs)
    ensures SortedByTime(Sawtooth(rs))
    ensures rs != [] ==> Sawtooth(rs)[0] == rs[0] && Sawtooth(rs)[|Sawtooth(rs)|-1].t == rs[|rs|-1].t
  {
    if |rs| > 1 {
      SawtoothKeepsTimeOrder(rs[..|rs|-1]);
    }
  }

  // ---------- against the unfiltered series

  /** parse_results_rdf.py: every reception resets the age, stale or not, and there is no sentinel. */
  ghost function Unfiltered(rs: seq<Point>): (s: seq<Point>)
    ensures |s| == if rs == [] then 0 else 2 * |rs| - 1
    ensures rs != [] ==> s[|s|-1] == rs[|rs|-1]
  {
    if |rs| <= 1 then rs
    else
      var n := |rs| - 1;
      Unfiltered(rs[..n]) + [Point(rs[n].t, rs[n].t - Generated(rs[n-1])), rs[n]]
  }

  method GetAoiTsUnfiltered(rcvdAoi: seq<Point>) returns (result: seq<Point>)
    ensures result == Unfiltered(rcvdAoi)
  {
    result := [];
    for i := 0 to |rcvdAoi|
      invariant result == Unfiltered(rcvdAoi[..i])
    {
      var entry := rcvdAoi[i];
      assert rcvdAoi[..i+1] == rcvdAoi[..i] + [entry];
      if |result| >= 1 {
        var prevVal := result[|result|-1];
        var age := entry.t - prevVal.t;
        result := result + [Point(entry.t, prevVal.age + age)];
      }
      result := result + [entry];
    }
    assert rcvdAoi[..|rcvdAoi|] == rcvdAoi;
  }

  /** The points of the unfiltered series: each reception, and before each but the first one the age that the
      reception before it has grown to. */
  lemma {:induction false} UnfilteredAt(rs: seq<Point>, k: nat)
    requires k < |rs|
    ensures Unfiltered(rs)[2*k] == rs[k]
    ensures k > 0 ==> Unfiltered(rs)[2*k-1] == Point(rs[k].t, rs[k-1].age + (rs[k].t - rs[k-1].t))
  {
    if |rs| > 1 && k < |rs| - 1 {
      UnfilteredAt(rs[..|rs|-1], k);
    }
  }

  /** After any reception the filtered age is at most the unfiltered one. */
  lemma NeverAboveUnfiltered(rs: seq<Point>)
    requires rs != []
    ensures Sawtooth(rs)[|Sawtooth(rs)|-1].age <= Unfiltered(rs)[|Unfiltered(rs)|-1].age
  {
    LastIsAge(rs);
    NewestIsMax(rs);
    assert rs[|rs|-1] in rs;
  }

  ghost predicate AlwaysFresher(rs: seq<Point>) {
    forall i, j :: 0 <= i < j < |rs| ==> Generated(rs[i]) < Generated(rs[j])
  }

  lemma FresherThanAll(rs: seq<Point>)
    requires |rs| > 1 && AlwaysFresher(rs)
    ensures Generated(rs[|rs|-1]) > Newest(rs[..|rs|-1])
  {
    var n := |rs| - 1;
    NewestIsMax(rs[..n]);
    var r :| r in rs[..n] && Generated(r) == Newest(rs[..n]);
    var i :| 0 <= i < n && rs[i] == r;
    assert Generated(rs[i]) < Generated(rs[n]);
  }

  lemma StaysFresher(rs: seq<Point>)
    requires |rs| > 1 && AlwaysFresher(rs[..|rs|-1]) && Generated(rs[|rs|-1]) > Newest(rs[..|rs|-1])
    ensures AlwaysFresher(rs)
  {
    var front := rs[..|rs|-1];
    NewestIsMax(front);
    forall i, j | 0 <= i < j < |rs| ensures Generated(rs[i]) < Generated(rs[j]) {
      assert front[i] == rs[i] && front[i] in front;
      assert j < |front| ==> front[j] == rs[j];
    }
  }

  lemma FresherStep(rs: seq<Point>)
    requires |rs| > 1
    ensures var n := |rs| - 1;
            AlwaysFresher(rs) <==> AlwaysFresher(rs[..n]) && Generated(rs[n]) > Newest(rs[..n])
  {
    if AlwaysFresher(rs) {
      FresherThanAll(rs);
      assert AlwaysFresher(rs[..|rs|-1]);
    } else if AlwaysFresher(rs[..|rs|-1]) && Generated(rs[|rs|-1]) > Newest(rs[..|rs|-1]) {
      StaysFresher(rs);
    }
  }

  lemma {:induction false} SawtoothLength(rs: seq<Point>)
    ensures |Sawtooth(rs)| <= |Unfiltered(rs)|
    ensures |Sawtooth(rs)| == |Unfiltered(rs)| <==> AlwaysFresher(rs)
  {
    if |rs| > 1 {
      SawtoothLength(rs[..|rs|-1]);
      FresherStep(rs);
    }
  }

  /** The two series coincide exactly when generation times strictly increase. */
  lemma {:induction false} SameAsUnfilteredIff(rs: seq<Point>)
    ensures Sawtooth(rs) == Unfiltered(rs) <==> AlwaysFresher(rs)
  {
    SawtoothLength(rs);
    if AlwaysFresher(rs) && |rs| > 1 {
      var n := |rs| - 1;
      FresherStep(rs);
      SameAsUnfilteredIff(rs[..n]);
      NewestOfFresher(rs[..n]);
    }
  }

  lemma NewestOfFresher(rs: seq<Point>)
    requires rs != [] && AlwaysFresher(rs)
    ensures Newest(rs) == Generated(rs[|rs|-1])
  {
    if |rs| > 1 {
      FresherStep(rs);
    }
  }

  /** A reception at time 10 of a packet sent before the one received at time 0: the series differ. */
  lemma StaleReceptionDiffers(rs: seq<Point>)
    requires rs == [Point(0.0, 0.0), Point(10.0, 20.0)]
    ensures Sawtooth(rs) != Unfiltered(rs)
  {
    assert Generated(rs[0]) > Generated(rs[1]);
    SameAsUnfilteredIff(rs);
  }

  /** The sentinel only adds points behind those of the real receptions. */
  lemma SentinelOnlyExtends(rs: seq<Point>)
    requires rs != []
    ensures Sawtooth(rs) <= Sawtooth(WithSentinel(rs))
  {
    assert WithSentinel(rs)[..|rs|] == rs;
  }

  // ---------- peaks

  /** The inner points that are strictly above both neighbours. */
  ghost function LocalMaxima(s: seq<Point>): seq<real> {
    if |s| < 3 then []
    else
      var n := |s|;
      var before := LocalMaxima(s[..n-1]);
      if s[n-2].age > s[n-3].age && s[n-2].age > s[n-1].age then before + [s[n-2].age] else before
  }

  /** The first age, the local maxima, and the last age. */
  ghost function Peaks(s: seq<Point>): seq<real>
    requires s != []
  {
    [s[0].age] + LocalMaxima(s) + [s[|s|-1].age]
  }

  ghost predicate IsLocalMaximum(s: seq<Point>, k: int) {
    0 < k < |s| - 1 && s[k].age > s[k-1].age && s[k].age > s[k+1].age
  }

  /** The positions of the local maxima, in order. */
  ghost predicate MaximaAt(s: seq<Point>, ks: seq<nat>) {
    && Ascending(ks) && Within(ks, |s|)
    && forall k: nat :: k in ks <==> IsLocalMaximum(s, k)
  }

  /** All of them are listed, in order. */
  lemma {:induction false} LocalMaximaAt(s: seq<Point>) returns (ks: seq<nat>)
    ensures MaximaAt(s, ks) && |LocalMaxima(s)| == |ks|
    ensures forall i :: 0 <= i < |ks| ==> LocalMaxima(s)[i] == s[ks[i]].age
  {
    ks := [];
    if |s| >= 3 {
      var n := |s|;
      ks := LocalMaximaAt(s[..n-1]);
      assert forall k :: IsLocalMaximum(s, k) <==> IsLocalMaximum(s[..n-1], k) || (k == n - 2 && IsLocalMaximum(s, k));
      if IsLocalMaximum(s, n - 2) {
        assert Within(ks, n - 2) by {
          forall i | 0 <= i < |ks| ensures ks[i] < n - 2 {
            assert ks[i] in ks;
            assert IsLocalMaximum(s[..n-1], ks[i]);
          }
        }
        AscendingMore(ks, n - 2);
        ks := ks + [n - 2];
      }
    }
  }

  method GetPeaks(s: seq<Point>) returns (peaks: seq<real>)
    requires s != []
    ensures peaks == Peaks(s)
  {
    peaks := [s[0].age];
    var i := 1;
    while i < |s| - 1
      invariant 1 <= i && (i <= |s| - 1 || |s| == 1)
      invariant peaks == [s[0].age] + if i < |s| then LocalMaxima(s[..i+1]) else []
    {
      var prevAoi, currentAoi, nextAoi := s[i-1].age, s[i].age, s[i+1].age;
      assert s[..i+2][..i+1] == s[..i+1];
      if currentAoi > prevAoi && currentAoi > nextAoi {
        peaks := peaks + [currentAoi];
      }
      i := i + 1;
    }
    assert s[..|s|] == s;
    peaks := peaks + [s[|s|-1].age];
  }

  /** The ages that the receptions with news, after the first one, put an end to. */
  ghost function EndedAges(rs: seq<Point>): seq<real> {
    if |rs| <= 1 then []
    else
      var n := |rs| - 1;
      var before := EndedAges(rs[..n]);
      if Generated(rs[n]) > Newest(rs[..n]) then before + [AgeFound(rs[..n], rs[n])] else before
  }

  lemma OnePointMore(s: seq<Point>, p: Point)
    requires s != []
    ensures LocalMaxima(s + [p])
         == if |s| > 1 && s[|s|-1].age > s[|s|-2].age && s[|s|-1].age > p.age
            then LocalMaxima(s) + [s[|s|-1].age] else LocalMaxima(s)
  {
    assert (s + [p])[..|s|] == s;
  }

  lemma SawtoothMore(rs: seq<Point>, r: Point)
    requires rs != []
    ensures Sawtooth(rs + [r]) == Sawtooth(rs) + AgeBlock(rs, r)
  {
    assert (rs + [r])[..|rs|] == rs;
  }

  lemma EndedMore(rs: seq<Point>, r: Point)
    requires rs != []
    ensures Generated(r) > Newest(rs) ==> EndedAges(rs + [r]) == EndedAges(rs) + [AgeFound(rs, r)]
    ensures Generated(r) <= Newest(rs) ==> EndedAges(rs + [r]) == EndedAges(rs)
  {
    assert (rs + [r])[..|rs|] == rs;
  }

  lemma ClimbAndFall(s: seq<Point>, rise: Point, r: Point, block: seq<Point>)
    requires s != [] && rise.age > s[|s|-1].age && r.age < rise.age && block == [rise, r]
    ensures LocalMaxima(s + block) == LocalMaxima(s) + [rise.age]
  {
    var up := s + [rise];
    OnePointMore(s, rise);
    assert LocalMaxima(up) == LocalMaxima(s);
    OnePointMore(up, r);
    assert s + block == up + [r];
  }

  /** A later reception with news adds a local maximum. */
  lemma FreshPeak(s: seq<Point>, found: real, r: Point, block: seq<Point>)
    requires s != [] && found - s[|s|-1].age == r.t - s[|s|-1].t && s[|s|-1].t < r.t && r.age < found
    requires block == [Point(r.t, found), r]
    ensures LocalMaxima(s + block) == LocalMaxima(s) + [found]
  {
    ClimbAndFall(s, block[0], r, block);
  }

  /** One without adds none. */
  lemma NoStalePeak(s: seq<Point>, found: real, r: Point, block: seq<Point>)
    requires s != [] && found - s[|s|-1].age == r.t - s[|s|-1].t && s[|s|-1].t <= r.t
    requires block == [Point(r.t, found)]
    ensures LocalMaxima(s + block) == LocalMaxima(s)
  {
    OnePointMore(s, block[0]);
  }

  /** At the time of the point before, a fall starts from a repeated point, which is no maximum. */
  lemma TieHidesPeak(s: seq<Point>, r: Point, block: seq<Point>)
    requires s != [] && block == [Point(r.t, s[|s|-1].age), r]
    ensures LocalMaxima(s + block) == LocalMaxima(s)
  {
    var up := s + [block[0]];
    OnePointMore(s, block[0]);
    OnePointMore(up, r);
    assert s + block == up + [r];
  }

  lemma FreshBlockPeak(s: seq<Point>, rs: seq<Point>, r: Point)
    requires s != [] && rs != [] && Generated(s[|s|-1]) == Newest(rs) < Generated(r) && s[|s|-1].t < r.t
    ensures LocalMaxima(s + AgeBlock(rs, r)) == LocalMaxima(s) + [AgeFound(rs, r)]
  {
    FreshBlock(rs, r);
    FreshPeak(s, AgeFound(rs, r), r, AgeBlock(rs, r));
  }

  lemma TiedBlockPeak(s: seq<Point>, rs: seq<Point>, r: Point)
    requires s != [] && rs != [] && Generated(s[|s|-1]) == Newest(rs) < Generated(r) && s[|s|-1].t == r.t
    ensures LocalMaxima(s + AgeBlock(rs, r)) == LocalMaxima(s)
  {
    FreshBlock(rs, r);
    assert AgeFound(rs, r) == s[|s|-1].age;
    TieHidesPeak(s, r, AgeBlock(rs, r));
  }

  lemma StaleBlockPeak(s: seq<Point>, rs: seq<Point>, r: Point)
    requires s != [] && rs != [] && Generated(s[|s|-1]) == Newest(rs) >= Generated(r) && s[|s|-1].t <= r.t
    ensures LocalMaxima(s + AgeBlock(rs, r)) == LocalMaxima(s)
  {
    StaleBlock(rs, r);
    NoStalePeak(s, AgeFound(rs, r), r, AgeBlock(rs, r));
  }

  /** The i-th reception brings news at the very time of the reception before it. */
  ghost predicate NewsAtTie(rs: seq<Point>, i: int) {
    0 < i < |rs| && rs[i-1].t == rs[i].t && Generated(rs[i]) > Newest(rs[..i])
  }

  ghost predicate NoNewsAtTie(rs: seq<Point>) {
    forall i :: !NewsAtTie(rs, i)
  }

  lemma NoNewsAtTieMore(front: seq<Point>, r: Point)
    requires front != []
    ensures NoNewsAtTie(front + [r])
       <==> NoNewsAtTie(front) && !(front[|front|-1].t == r.t && Generated(r) > Newest(front))
  {
    var rs, n := front + [r], |front|;
    assert rs[..n] == front;
    forall i | i != n ensures NewsAtTie(rs, i) == NewsAtTie(front, i) {
      SameNewsAtTie(front, r, i);
    }
    assert NewsAtTie(rs, n) <==> front[n-1].t == r.t && Generated(r) > Newest(front);
  }

  lemma SameNewsAtTie(front: seq<Point>, r: Point, i: int)
    requires i != |front|
    ensures NewsAtTie(front + [r], i) == NewsAtTie(front, i)
  {
    assert 0 < i < |front| ==> (front + [r])[..i] == front[..i];
  }

  /** The ages that news put an end to later than the reception before it. */
  ghost function EndedLater(rs: seq<Point>): seq<real> {
    if |rs| <= 1 then []
    else
      var n := |rs| - 1;
      var before := EndedLater(rs[..n]);
      if Generated(rs[n]) > Newest(rs[..n]) && rs[n-1].t != rs[n].t then before + [AgeFound(rs[..n], rs[n])]
      else before
  }

  lemma EndedLaterMore(rs: seq<Point>, r: Point)
    requires rs != []
    ensures EndedLater(rs + [r])
         == if Generated(r) > Newest(rs) && rs[|rs|-1].t != r.t then EndedLater(rs) + [AgeFound(rs, r)]
            else EndedLater(rs)
  {
    assert (rs + [r])[..|rs|] == rs;
  }

  /** Just these are the local maxima. */
  lemma {:induction false} LocalMaximaOfSawtooth(rs: seq<Point>)
    requires SortedByTime(rs) && rs != []
    ensures LocalMaxima(Sawtooth(rs)) == EndedLater(rs)
  {
    if |rs| > 1 {
      var n := |rs| - 1;
      var front, r := rs[..n], rs[n];
      assert rs == front + [r] && rs[n-1].t <= rs[n].t;
      LocalMaximaOfSawtooth(front);
      LastIsAge(front);
      SawtoothMore(front, r);
      EndedLaterMore(front, r);
      if Generated(r) <= Newest(front) {
        StaleBlockPeak(Sawtooth(front), front, r);
      } else if rs[n-1].t == r.t {
        TiedBlockPeak(Sawtooth(front), front, r);
      } else {
        FreshBlockPeak(Sawtooth(front), front, r);
      }
    }
  }

  /** They are never too many, and too few as soon as news has come at a tie. */
  lemma {:induction false} EndedLaterCount(rs: seq<Point>)
    requires rs != []
    ensures |EndedLater(rs)| <= |EndedAges(rs)|
    ensures NoNewsAtTie(rs) ==> EndedLater(rs) == EndedAges(rs)
    ensures !NoNewsAtTie(rs) ==> |EndedLater(rs)| < |EndedAges(rs)|
  {
    if |rs| > 1 {
      var n := |rs| - 1;
      assert rs == rs[..n] + [rs[n]];
      EndedLaterCount(rs[..n]);
      EndedMore(rs[..n], rs[n]);
      EndedLaterMore(rs[..n], rs[n]);
      NoNewsAtTieMore(rs[..n], rs[n]);
    }
  }

  /** The local maxima of the series are the ages ended by news, exactly when no news comes at a tie. */
  lemma LocalMaximaOfSawtoothIff(rs: seq<Point>)
    requires SortedByTime(rs) && rs != []
    ensures LocalMaxima(Sawtooth(rs)) == EndedAges(rs) <==> NoNewsAtTie(rs)
  {
    LocalMaximaOfSawtooth(rs);
    EndedLaterCount(rs);
  }

  /** Received at time 5 with delay 0, and at time 10 with delays 6 and 1: the age of 5 that the last
      reception ends is not among the peaks. */
  lemma PeakLostAtTie()
    ensures var rs := [Point(5.0, 0.0), Point(10.0, 6.0), Point(10.0, 1.0)];
            SortedByTime(rs) && LocalMaxima(Sawtooth(rs)) != EndedAges(rs)
  {
    var rs := [Point(5.0, 0.0), Point(10.0, 6.0), Point(10.0, 1.0)];
    assert rs[..2] == [Point(5.0, 0.0), Point(10.0, 6.0)] && rs[..2][..1] == [Point(5.0, 0.0)];
    assert Newest(rs[..2]) == 5.0 < Generated(rs[2]);
    assert NewsAtTie(rs, 2);
    LocalMaximaOfSawtoothIff(rs);
  }

  /** get_peaks on a series with its sentinel: the first age, every age that news put an end to
      (the sentinel's included), and the last age. */
  lemma PeaksAreEndedAges(rs: seq<Point>)
    requires rs != [] && StrictlyLater(WithSentinel(rs)) && forall r :: r in rs ==> r.age >= 0.0
    ensures var s := Sawtooth(WithSentinel(rs));
            s != [] && Peaks(s) == [rs[0].age] + (EndedAges(rs) + [AgeFound(rs, Point(T_MAX, 0.0))]) + [0.0]
  {
    LocalMaximaOfSawtoothIff(WithSentinel(rs));
    SawtoothStart(WithSentinel(rs));
    SentinelIsFresh(rs);
    SentinelFallsToZero(rs);
    SentinelEndsAge(rs);
  }

  lemma SentinelFallsToZero(rs: seq<Point>)
    requires rs != [] && Newest(rs) < T_MAX
    ensures Sawtooth(WithSentinel(rs)) == Sawtooth(rs) + [Point(T_MAX, T_MAX - Newest(rs)), Point(T_MAX, 0.0)]
  {
    var sentinel := Point(T_MAX, 0.0);
    FreshBlock(rs, sentinel);
    SawtoothMore(rs, sentinel);
    assert WithSentinel(rs) == rs + [sentinel];
  }

  lemma SentinelEndsAge(rs: seq<Point>)
    requires rs != [] && Newest(rs) < T_MAX
    ensures EndedAges(WithSentinel(rs)) == EndedAges(rs) + [AgeFound(rs, Point(T_MAX, 0.0))]
  {
    EndedMore(rs, Point(T_MAX, 0.0));
  }

  lemma SentinelIsFresh(rs: seq<Point>)
    requires rs != [] && StrictlyLater(WithSentinel(rs)) && forall r :: r in rs ==> r.age >= 0.0
    ensures Newest(rs) < T_MAX
  {
    NewestIsMax(rs);
    var r :| r in rs && Generated(r) == Newest(rs);
    var i :| 0 <= i < |rs| && rs[i] == r;
    assert WithSentinel(rs)[i].t < WithSentinel(rs)[|rs|].t;
  }

  lemma {:induction false} SawtoothStart(rs: seq<Point>)
    requires rs != []
    ensures Sawtooth(rs)[0] == rs[0]
  {
    if |rs| > 1 {
      SawtoothStart(rs[..|rs|-1]);
    }
  }

  /** The i-th reception brings news, and so puts an end to this age. */
  ghost predicate EndedBy(rs: seq<Point>, i: int, age: real) {
    0 < i < |rs| && Generated(rs[i]) > Newest(rs[..i]) && AgeFound(rs[..i], rs[i]) == age
  }

  lemma SameEndedBy(front: seq<Point>, r: Point, i: int, age: real)
    requires i != |front|
    ensures EndedBy(front + [r], i, age) == EndedBy(front, i, age)
  {
    assert 0 < i < |front| ==> (front + [r])[..i] == front[..i];
  }

  ghost predicate EndedAtNoTie(rs: seq<Point>, i: int, age: real) {
    EndedBy(rs, i, age) && !NewsAtTie(rs, i)
  }

  lemma {:induction false} EndedLaterMember(rs: seq<Point>, age: real)
    ensures age in EndedLater(rs) <==> exists i :: EndedAtNoTie(rs, i, age)
  {
    if |rs| > 1 {
      var n := |rs| - 1;
      var front, r := rs[..n], rs[n];
      assert rs == front + [r];
      EndedLaterMember(front, age);
      EndedLaterMore(front, r);
      forall i | i != n ensures EndedAtNoTie(rs, i, age) == EndedAtNoTie(front, i, age) {
        SameEndedBy(front, r, i, age);
        SameNewsAtTie(front, r, i);
      }
      assert EndedAtNoTie(rs, n, age)
        <==> Generated(r) > Newest(front) && AgeFound(front, r) == age && front[n-1].t != r.t;
    }
  }

  ghost predicate AtMostSome(age: real, ages: seq<real>) {
    exists i :: 0 <= i < |ages| && age <= ages[i]
  }

  /** The first age, the ages that news put an end to, at a tie or not, and the last age. */
  ghost function EndsOfAges(rs: seq<Point>): seq<real>
    requires rs != []
  {
    [rs[0].age] + EndedAges(rs) + [rs[|rs|-1].t - Newest(rs)]
  }

  lemma {:induction false} EndedIsAge(rs: seq<Point>, age: real) returns (k: nat)
    requires age in EndedAges(rs)
    ensures k < |Sawtooth(rs)| && Sawtooth(rs)[k].age == age
  {
    var n := |rs| - 1;
    if age in EndedAges(rs[..n]) {
      k := EndedIsAge(rs[..n], age);
    } else {
      k := |Sawtooth(rs[..n])|;
    }
  }

  /** One more reception ends or prolongs the last age, which has grown. */
  lemma EndsOfAgesMore(rs: seq<Point>, r: Point, age: real)
    requires rs != [] && rs[|rs|-1].t <= r.t && AtMostSome(age, EndsOfAges(rs))
    ensures AtMostSome(age, EndsOfAges(rs + [r]))
  {
    var was, now := EndsOfAges(rs), EndsOfAges(rs + [r]);
    var i :| 0 <= i < |was| && age <= was[i];
    EndedMore(rs, r);
    assert (rs + [r])[..|rs|] == rs;
    if i < |was| - 1 {
      assert now[i] == was[i];
    } else {
      assert now[i] == AgeFound(rs, r);
    }
  }

  lemma NewEnds(rs: seq<Point>, r: Point)
    requires rs != []
    ensures AtMostSome(AgeFound(rs, r), EndsOfAges(rs + [r]))
    ensures Generated(r) > Newest(rs) ==> AtMostSome(r.age, EndsOfAges(rs + [r]))
  {
    var now := EndsOfAges(rs + [r]);
    EndedMore(rs, r);
    assert (rs + [r])[..|rs|] == rs;
    assert now[|EndedAges(rs)|+1] == AgeFound(rs, r);
    assert Generated(r) > Newest(rs) ==> now[|now|-1] == r.age;
  }

  /** No age of the series is above all of these. */
  lemma {:induction false} AgesAreBelowEnds(rs: seq<Point>, k: nat)
    requires SortedByTime(rs) && k < |Sawtooth(rs)|
    ensures AtMostSome(Sawtooth(rs)[k].age, EndsOfAges(rs))
  {
    var n := |rs| - 1;
    if n == 0 {
      assert EndsOfAges(rs)[0] == rs[0].age;
    } else {
      var front, r := rs[..n], rs[n];
      assert rs == front + [r];
      SawtoothMore(front, r);
      if k < |Sawtooth(front)| {
        AgesAreBelowEnds(front, k);
        EndsOfAgesMore(front, r, Sawtooth(rs)[k].age);
      } else {
        NewEnds(front, r);
        assert Sawtooth(rs)[k] == AgeBlock(front, r)[k-|Sawtooth(front)|];
      }
    }
  }

  ghost predicate Greatest(s: seq<Point>, k: nat) {
    k < |s| && forall i :: 0 <= i < |s| ==> s[i].age <= s[k].age
  }

  /** The greatest age is the first one, the last one, or one that news put an end to. */
  lemma GreatestAgeEnds(rs: seq<Point>, k: nat)
    requires rs != [] && SortedByTime(rs) && Greatest(Sawtooth(rs), k)
    ensures Sawtooth(rs)[k].age in EndsOfAges(rs)
  {
    var s, ends := Sawtooth(rs), EndsOfAges(rs);
    AgesAreBelowEnds(rs, k);
    var i :| 0 <= i < |ends| && s[k].age <= ends[i];
    SawtoothStart(rs);
    LastIsAge(rs);
    if 0 < i < |ends| - 1 {
      var j := EndedIsAge(rs, ends[i]);
    }
    assert ends[i] == s[k].age;
  }

  lemma {:induction false} EndedMember(rs: seq<Point>, age: real)
    ensures age in EndedAges(rs) <==> exists i :: EndedBy(rs, i, age)
  {
    if |rs| > 1 {
      var n := |rs| - 1;
      var front, r := rs[..n], rs[n];
      assert rs == front + [r];
      EndedMember(front, age);
      EndedMore(front, r);
      forall i | i != n ensures EndedBy(rs, i, age) == EndedBy(front, i, age) {
        SameEndedBy(front, r, i, age);
      }
      assert EndedBy(rs, n, age) <==> Generated(r) > Newest(front) && AgeFound(front, r) == age;
    }
  }

  ghost predicate FirstOrLastAge(s: seq<Point>, age: real) {
    s != [] && (age == s[0].age || age == s[|s|-1].age)
  }

  /** The greatest age, when it is neither the first nor the last, is ended by some news; and get_peaks returns
      it exactly when that news, or other news that ends the same age, does not come at a tie. */
  lemma GreatestAgeIsPeakIff(rs: seq<Point>, s: seq<Point>, k: nat)
    requires rs != [] && SortedByTime(rs) && s == Sawtooth(rs) && Greatest(s, k)
    ensures FirstOrLastAge(s, s[k].age) || exists i :: EndedBy(rs, i, s[k].age)
    ensures s[k].age in Peaks(s) <==> FirstOrLastAge(s, s[k].age) || exists i :: EndedAtNoTie(rs, i, s[k].age)
  {
    GreatestAgeEnds(rs, k);
    SawtoothStart(rs);
    LastIsAge(rs);
    EndedMember(rs, s[k].age);
    LocalMaximaOfSawtooth(rs);
    EndedLaterMember(rs, s[k].age);
  }

  /** So on a pair's series of strictly later receptions, get_peaks returns the greatest age. */
  lemma GreatestAgeIsPeak(rs: seq<Point>, s: seq<Point>, k: nat)
    requires rs != [] && StrictlyLater(WithSentinel(rs)) && s == Sawtooth(WithSentinel(rs)) && Greatest(s, k)
    ensures s[k].age in Peaks(s)
  {
    var all := WithSentinel(rs);
    GreatestAgeIsPeakIff(all, s, k);
    if i :| EndedBy(all, i, s[k].age) {
      assert all[i-1].t < all[i].t;
      assert EndedAtNoTie(all, i, s[k].age);
    }
  }

  lemma LosingSeries(a: seq<Point>, p: Point, q: Point)
    requires a == [Point(0.0, 0.0)] && p == Point(150000.0, 150000.0) && q == Point(150000.0, 0.0)
    ensures Sawtooth(WithSentinel(a + [p] + [q]))
         == a + [p] + [p, q] + [Point(T_MAX, 52000.0), Point(T_MAX, 0.0)]
    ensures SortedByTime(WithSentinel(a + [p] + [q]))
  {
    SawtoothMore(a, p);
    StaleBlock(a, p);
    SawtoothMore(a + [p], q);
    NewestMore(a, p);
    FreshBlock(a + [p], q);
    NewestMore(a + [p], q);
    SentinelFallsToZero(a + [p] + [q]);
  }

  lemma NewestMore(rs: seq<Point>, r: Point)
    requires rs != []
    ensures Newest(rs + [r]) == if Generated(r) > Newest(rs) then Generated(r) else Newest(rs)
  {
    assert (rs + [r])[..|rs|] == rs;
  }

  /** Received at time 0 with delay 0, and at time 150000 with delays 150000 and 0: the greatest age, 150000,
      is not among the peaks. */
  lemma GreatestAgeLost(rs: seq<Point>, s: seq<Point>)
    requires rs == [Point(0.0, 0.0), Point(150000.0, 150000.0), Point(150000.0, 0.0)]
    requires s == Sawtooth(WithSentinel(rs))
    ensures SortedByTime(WithSentinel(rs)) && Greatest(s, 1) && s[1].age !in Peaks(s)
  {
    var a, p, q := [Point(0.0, 0.0)], Point(150000.0, 150000.0), Point(150000.0, 0.0);
    assert a + [p] + [q] == rs;
    LosingSeries(a, p, q);
    LosingPeaks(s, a + [p], p, q);
  }

  lemma LosingPeaks(s: seq<Point>, a: seq<Point>, p: Point, q: Point)
    requires a == [Point(0.0, 0.0), p] && p == Point(150000.0, 150000.0) && q == Point(150000.0, 0.0)
    requires s == a + [p, q] + [Point(T_MAX, 52000.0), Point(T_MAX, 0.0)]
    ensures Greatest(s, 1) && Peaks(s) == [0.0, 52000.0, 0.0] && s[1].age == 150000.0
  {
    TieHidesPeak(a, q, [p, q]);
    ClimbAndFall(a + [p, q], Point(T_MAX, 52000.0), Point(T_MAX, 0.0), [Point(T_MAX, 52000.0), Point(T_MAX, 0.0)]);
    assert LocalMaxima(a) == [];
  }

  // ---------- the average

  function Trapezoid(p: Point, q: Point): real {
    (p.age + q.age) / 2.0 * (q.t - p.t)
  }

  /** numpy.trapz over the series. */
  function Integral(s: seq<Point>): real {
    if |s| <= 1 then 0.0
    else Integral(s[..|s|-1]) + Trapezoid(s[|s|-2], s[|s|-1])
  }

  /** Over no time at all there is no average. */
  datatype Average = NoTime | Average(value: real)

  /** get_avg_aoi; -1 stands for a series of at most one point. */
  function GetAvgAoi(s: seq<Point>): Average {
    if |s| <= 1 then Average(-1.0)
    else
      var totalTime := s[|s|-1].t - s[0].t;
      if totalTime == 0.0 then NoTime else Average(Integral(s) / totalTime)
  }

  lemma {:induction false} IntegralNotNegative(s: seq<Point>)
    requires SortedByTime(s) && forall i :: 0 <= i < |s| ==> s[i].age >= 0.0
    ensures Integral(s) >= 0.0
  {
    if |s| > 1 {
      var n := |s| - 1;
      IntegralNotNegative(s[..n]);
      ProductNotNegative((s[n-1].age + s[n].age) / 2.0, s[n].t - s[n-1].t);
    }
  }

  lemma ProductNotNegative(x: real, y: real)
    requires x >= 0.0 && y >= 0.0
    ensures x * y >= 0.0
  {
  }

  /** On a series in time order without negative ages, -1 is returned for at most one point and never else, and there
      is no average just if there is more than one point and all have the same time. */
  lemma AverageOfShortSeries(s: seq<Point>)
    requires SortedByTime(s) && forall i :: 0 <= i < |s| ==> s[i].age >= 0.0
    ensures GetAvgAoi(s) == Average(-1.0) <==> |s| <= 1
    ensures GetAvgAoi(s) == NoTime <==> |s| > 1 && s[0].t == s[|s|-1].t
  {
    if |s| > 1 {
      var d := s[|s|-1].t - s[0].t;
      assert d >= 0.0;
      if d != 0.0 {
        IntegralNotNegative(s);
        QuotientNotNegative(Integral(s), d);
      }
    }
  }

  lemma QuotientNotNegative(x: real, d: real)
    requires x >= 0.0 && d > 0.0
    ensures x / d >= 0.0
  {
  }

  ghost function Square(x: real): real {
    x * x
  }

  /** The sum, over all falls, of the square of the height fallen from minus that fallen to. */
  ghost function FallenSquares(s: seq<Point>): real {
    if |s| <= 1 then 0.0
    else
      var p, q := s[|s|-2], s[|s|-1];
      FallenSquares(s[..|s|-1]) + if Rises(p, q) then 0.0 else Square(p.age) - Square(q.age)
  }

  /** Twice the area under a sawtooth, from its corners alone. */
  lemma {:induction false} AreaFromCorners(s: seq<Point>)
    requires s != [] && SawtoothShape(s)
    ensures 2.0 * Integral(s) == Square(s[|s|-1].age) - Square(s[0].age) + FallenSquares(s)
  {
    if |s| > 1 {
      var n := |s| - 1;
      var p, q := s[n-1], s[n];
      AreaFromCorners(s[..n]);
      assert Rises(s[n-1], s[n-1+1]) || Drops(s[n-1], s[n-1+1]);
      if Rises(p, q) {
        SlopeOneArea(p, q);
      } else {
        assert Trapezoid(p, q) == 0.0;
      }
    }
  }

  lemma SlopeOneArea(p: Point, q: Point)
    requires Rises(p, q)
    ensures 2.0 * Trapezoid(p, q) == Square(q.age) - Square(p.age)
  {
    assert q.t - p.t == q.age - p.age;
    assert 2.0 * Trapezoid(p, q) == (p.age + q.age) * (q.age - p.age);
  }

  /** The same sum from the receptions: each one with news ends an age and leaves its delay. */
  ghost function NewsSquares(rs: seq<Point>): real {
    if |rs| <= 1 then 0.0
    else
      var n := |rs| - 1;
      NewsSquares(rs[..n])
      + if Generated(rs[n]) > Newest(rs[..n]) then Square(rs[n].t - Newest(rs[..n])) - Square(rs[n].age) else 0.0
  }

  lemma FallenMore(s: seq<Point>, p: Point)
    requires s != []
    ensures FallenSquares(s + [p])
         == FallenSquares(s) + if Rises(s[|s|-1], p) then 0.0 else Square(s[|s|-1].age) - Square(p.age)
  {
    assert (s + [p])[..|s|] == s;
  }

  lemma FallenTwice(s: seq<Point>, rise: Point, r: Point, block: seq<Point>)
    requires s != [] && Rises(s[|s|-1], rise) && rise.t == r.t && r.age < rise.age && block == [rise, r]
    ensures FallenSquares(s + block) == FallenSquares(s) + (Square(rise.age) - Square(r.age))
  {
    FallenMore(s, rise);
    FallenMore(s + [rise], r);
    assert s + block == s + [rise] + [r];
  }

  lemma FallenBlock(s: seq<Point>, rs: seq<Point>, r: Point)
    requires s != [] && rs != [] && Generated(s[|s|-1]) == Newest(rs)
    ensures FallenSquares(s + AgeBlock(rs, r))
         == FallenSquares(s) + if Generated(r) > Newest(rs) then Square(r.t - Newest(rs)) - Square(r.age) else 0.0
  {
    var rise := Point(r.t, AgeFound(rs, r));
    if Generated(r) > Newest(rs) {
      FreshBlock(rs, r);
      FallenTwice(s, rise, r, AgeBlock(rs, r));
    } else {
      StaleBlock(rs, r);
      FallenMore(s, rise);
    }
  }

  lemma {:induction false} FallsAreNews(rs: seq<Point>)
    requires rs != []
    ensures FallenSquares(Sawtooth(rs)) == NewsSquares(rs)
  {
    if |rs| > 1 {
      var n := |rs| - 1;
      var front, r := rs[..n], rs[n];
      assert rs == front + [r];
      FallsAreNews(front);
      LastIsAge(front);
      FallenBlock(Sawtooth(front), front, r);
      SawtoothMore(front, r);
      NewsMore(front, r);
    }
  }

  lemma NewsMore(rs: seq<Point>, r: Point)
    requires rs != []
    ensures NewsSquares(rs + [r])
         == NewsSquares(rs) + if Generated(r) > Newest(rs) then Square(r.t - Newest(rs)) - Square(r.age) else 0.0
  {
    assert (rs + [r])[..|rs|] == rs;
  }

  lemma SentinelNews(rs: seq<Point>)
    requires rs != [] && Newest(rs) < T_MAX
    ensures NewsSquares(WithSentinel(rs)) == NewsSquares(rs) + (Square(T_MAX - Newest(rs)) - Square(0.0))
  {
    var sentinel := Point(T_MAX, 0.0);
    assert Generated(sentinel) > Newest(rs);
    NewsMore(rs, sentinel);
  }

  /** Twice the area under a pair's series, from its receptions alone. */
  lemma AreaFromReceptions(rs: seq<Point>)
    requires rs != [] && Newest(rs) < T_MAX
    ensures 2.0 * Integral(Sawtooth(WithSentinel(rs)))
         == NewsSquares(rs) + Square(T_MAX - Newest(rs)) - Square(rs[0].age)
  {
    var s := Sawtooth(WithSentinel(rs));
    SawtoothHasShape(WithSentinel(rs));
    AreaFromCorners(s);
    FallsAreNews(WithSentinel(rs));
    SentinelNews(rs);
    SawtoothStart(WithSentinel(rs));
    SentinelFallsToZero(rs);
    assert s[|s|-1].age == 0.0 && s[0] == rs[0];
  }

  lemma SeriesDuration(rs: seq<Point>)
    requires rs != [] && Newest(rs) < T_MAX
    ensures var s := Sawtooth(WithSentinel(rs));
            |s| > 1 && s[|s|-1].t - s[0].t == T_MAX - rs[0].t
  {
    SawtoothStart(WithSentinel(rs));
    SentinelFallsToZero(rs);
  }

  lemma AverageOver(s: seq<Point>, d: real)
    requires |s| > 1 && s[|s|-1].t - s[0].t == d && d != 0.0
    ensures GetAvgAoi(s) == Average(Integral(s) / d)
  {
  }

  /** get_avg_aoi is that area over the time from the first reception to T_MAX. */
  lemma AverageIsAreaOverTime(rs: seq<Point>, s: seq<Point>)
    requires rs != [] && Newest(rs) < T_MAX && rs[0].t != T_MAX && s == Sawtooth(WithSentinel(rs))
    ensures GetAvgAoi(s) == Average(Integral(s) / (T_MAX - rs[0].t))
  {
    SeriesDuration(rs);
    AverageOver(s, T_MAX - rs[0].t);
  }
}
