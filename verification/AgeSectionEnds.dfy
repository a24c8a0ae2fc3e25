/**
 analysis_scripts/parse_results_v3.py: where the sections of an age series begin and end, and what the
 interpolation is there for: by distance, sections are cut at times at which the series has no point.
 */
module AgeSectionEnds {
  import opened AgeSeries
  import opened AgeInterpolation
  import opened AgeSections

  ghost predicate BeginsAt(section: seq<Point>, t: real) {
    section != [] && section[0].t == t
  }

  ghost predicate EndsAt(section: seq<Point>, t: real) {
    section != [] && section[|section|-1].t == t
  }

  ghost predicate HasTime(s: seq<Point>, t: real) {
    exists i :: 0 <= i < |s| && s[i].t == t
  }

  // ---------- without interpolation

  /** In s, the points from a to b are those from the j-th up to the k-th. */
  ghost predicate Bounds(s: seq<Point>, a: real, b: real, j: nat, k: nat) {
    && j <= k <= |s|
    && forall i :: 0 <= i < |s| ==> (i < j <==> s[i].t < a) && (i < k <==> s[i].t <= b)
  }

  /** What is between two times, in a sorted series, is a slice of it. */
  lemma {:induction false} BetweenIsSlice(s: seq<Point>, a: real, b: real) returns (j: nat, k: nat)
    requires SortedByTime(s) && a <= b
    ensures Bounds(s, a, b, j, k) && Between(s, a, b) == s[j..k]
  {
    if s == [] {
      j, k := 0, 0;
    } else {
      var n := |s| - 1;
      j, k := BetweenIsSlice(s[..n], a, b);
      var front, p := s[..n], s[n];
      assert s == front + [p];
      BoundsMore(front, p, a, b, j, k);
      BetweenMore(front, p, a, b);
      SliceMore(front, p, j, k);
      if p.t < a {
        j, k := n + 1, n + 1;
      } else if p.t <= b {
        k := n + 1;
      }
    }
  }

  lemma BetweenMore(s: seq<Point>, p: Point, a: real, b: real)
    ensures Between(s + [p], a, b) == if a <= p.t <= b then Between(s, a, b) + [p] else Between(s, a, b)
  {
    assert (s + [p])[..|s|] == s;
  }

  lemma BoundsMore(s: seq<Point>, p: Point, a: real, b: real, j: nat, k: nat)
    requires SortedByTime(s + [p]) && a <= b && Bounds(s, a, b, j, k)
    ensures Bounds(s + [p], a, b, if p.t < a then |s| + 1 else j, if p.t <= b then |s| + 1 else k)
    ensures p.t <= b ==> k == |s|
    ensures p.t < a ==> j == |s|
  {
    var all := s + [p];
    assert forall i :: 0 <= i < |s| ==> all[i] == s[i] && all[i].t <= all[|s|].t;
    assert k < |s| ==> s[k].t > b;
    assert j < |s| ==> s[j].t >= a;
  }

  lemma SliceMore(s: seq<Point>, p: Point, j: nat, k: nat)
    requires j <= k <= |s|
    ensures (s + [p])[j..k] == s[j..k]
    ensures k == |s| ==> (s + [p])[j..k+1] == s[j..k] + [p]
    ensures (s + [p])[|s|+1..|s|+1] == []
  {
  }

  /** A section begins at its start time, or ends at its end time, exactly when the series has a point there. */
  lemma SectionEndsIff(s: seq<Point>, a: real, b: real)
    requires SortedByTime(s) && a <= b
    ensures BeginsAt(Between(s, a, b), a) <==> HasTime(s, a)
    ensures EndsAt(Between(s, a, b), b) <==> HasTime(s, b)
  {
    var j, k := BetweenIsSlice(s, a, b);
    if i :| 0 <= i < |s| && s[i].t == a {
      assert j <= i < k && s[j].t <= a;
    }
    if i :| 0 <= i < |s| && s[i].t == b {
      assert j <= i < k && s[k-1].t >= b;
    }
  }

  /** Cut at times 5 and 10, a series with points at 0 and 10 gives a section that does not begin at 5. */
  lemma SectionBeginsLate(s: seq<Point>)
    requires s == [Point(0.0, 0.0), Point(10.0, 10.0)]
    ensures !BeginsAt(Between(s, 5.0, 10.0), 5.0)
  {
    SectionEndsIff(s, 5.0, 10.0);
  }

  lemma HasTimeLeft(a: seq<Point>, b: seq<Point>, t: real)
    requires HasTime(a, t)
    ensures HasTime(a + b, t)
  {
    var i :| 0 <= i < |a| && a[i].t == t;
    assert (a + b)[i] == a[i];
  }

  /** Every reception leaves a point at its time. */
  lemma {:induction false} ReceptionHasPoint(rs: seq<Point>, i: nat)
    requires i < |rs|
    ensures HasTime(Sawtooth(rs), rs[i].t)
  {
    var n := |rs| - 1;
    if i < n {
      ReceptionHasPoint(rs[..n], i);
      assert rs == rs[..n] + [rs[n]];
      SawtoothMore(rs[..n], rs[n]);
      HasTimeLeft(Sawtooth(rs[..n]), AgeBlock(rs[..n], rs[n]), rs[i].t);
    } else {
      LastIsAge(rs);
    }
  }

  // ---------- with it

  lemma {:induction false} NewPointsMember(times: seq<real>, s: seq<Point>, p: Point)
    ensures p in NewPoints(times, s) <==> Covers(s, p.t) && p == NewPoint(s, p.t) && p.t in times
  {
    if times != [] {
      var n := |times| - 1;
      NewPointsMember(times[..n], s, p);
      assert times == times[..n] + [times[n]];
    }
  }

  lemma InterpolatedMember(times: seq<real>, s: seq<Point>, p: Point)
    ensures p in Interpolated(times, s) <==> p in NewPoints(times, s) || p in s
  {
    var all := NewPoints(times, s) + s;
    StableSortSorts(all);
    assert p in StableSort(all) <==> p in multiset(StableSort(all));
    assert p in all <==> p in multiset(all);
  }

  /** After interpolation there is a point at a given time exactly when it is within the series. */
  lemma InterpolatedHasTime(times: seq<real>, s: seq<Point>, t: real)
    requires SortedByTime(s) && s != [] && t in times
    ensures SortedByTime(Interpolated(times, s))
    ensures HasTime(Interpolated(times, s), t) <==> s[0].t <= t <= s[|s|-1].t
  {
    var r := Interpolated(times, s);
    StableSortSorts(NewPoints(times, s) + s);
    CoversIff(s, t);
    if i :| 0 <= i < |r| && r[i].t == t {
      InterpolatedMember(times, s, r[i]);
      NewPointsMember(times, s, r[i]);
    }
    if s[0].t <= t <= s[|s|-1].t {
      var p := if t < s[|s|-1].t then NewPoint(s, t) else s[|s|-1];
      NewPointsMember(times, s, p);
      InterpolatedMember(times, s, p);
    }
  }

  // ---------- and with which ages

  /** x is the k-th point, and all before it are earlier. */
  ghost predicate IsFirst(r: seq<Point>, k: int, x: Point) {
    0 <= k < |r| && r[k] == x && forall i :: 0 <= i < k ==> r[i].t < x.t
  }

  ghost predicate FirstAt(r: seq<Point>, x: Point) {
    exists k :: IsFirst(r, k, x)
  }

  /** x is the k-th point, and all behind it are later. */
  ghost predicate IsLast(r: seq<Point>, k: int, x: Point) {
    0 <= k < |r| && r[k] == x && forall i :: k < i < |r| ==> r[i].t > x.t
  }

  ghost predicate LastAt(r: seq<Point>, x: Point) {
    exists k :: IsLast(r, k, x)
  }

  lemma InsertPlaces(p: Point, r: seq<Point>) returns (j: nat)
    requires SortedByTime(r)
    ensures |Insert(p, r)| == |r| + 1 && j <= |r| && Insert(p, r)[j] == p
    ensures forall i :: 0 <= i < j ==> Insert(p, r)[i] == r[i] && r[i].t < p.t
    ensures forall i :: j <= i < |r| ==> Insert(p, r)[i+1] == r[i] && r[i].t >= p.t
  {
    j := InsertPosition(p, r);
  }

  lemma InsertedFirst(p: Point, r: seq<Point>)
    requires SortedByTime(r)
    ensures FirstAt(Insert(p, r), p)
  {
    var j := InsertPlaces(p, r);
    assert IsFirst(Insert(p, r), j, p);
  }

  lemma InsertedLast(p: Point, r: seq<Point>)
    requires SortedByTime(r) && !HasTime(r, p.t)
    ensures LastAt(Insert(p, r), p)
  {
    var j := InsertPlaces(p, r);
    var now := Insert(p, r);
    forall i | j < i < |now| ensures now[i].t > p.t {
      assert now[i-1+1] == r[i-1] && r[i-1].t != p.t;
    }
    assert IsLast(now, j, p);
  }

  lemma InsertKeepsFirst(p: Point, r: seq<Point>, x: Point)
    requires SortedByTime(r) && FirstAt(r, x) && p.t != x.t
    ensures FirstAt(Insert(p, r), x)
  {
    var j := InsertPlaces(p, r);
    var now := Insert(p, r);
    var k :| IsFirst(r, k, x);
    if k < j {
      assert IsFirst(now, k, x);
    } else {
      forall i | 0 <= i < k + 1 ensures now[i].t < x.t {
        if i > j {
          assert now[i-1+1] == r[i-1];
        }
      }
      assert IsFirst(now, k + 1, x);
    }
  }

  lemma InsertKeepsLast(p: Point, r: seq<Point>, x: Point)
    requires SortedByTime(r) && LastAt(r, x)
    ensures LastAt(Insert(p, r), x)
  {
    var j := InsertPlaces(p, r);
    var now := Insert(p, r);
    var k :| IsLast(r, k, x);
    if k >= j {
      forall i | k + 1 < i < |now| ensures now[i].t > x.t {
        assert now[i-1+1] == r[i-1];
      }
      assert IsLast(now, k + 1, x);
    } else {
      forall i | k < i < |now| ensures now[i].t > x.t {
        if i > j {
          assert now[i-1+1] == r[i-1];
        }
      }
      assert IsLast(now, k, x);
    }
  }

  ghost predicate AllNew(ps: seq<Point>, s: seq<Point>) {
    forall i :: 0 <= i < |ps| ==> Covers(s, ps[i].t) && ps[i] == NewPoint(s, ps[i].t)
  }

  /** A new point comes before all old ones of its time. */
  lemma {:induction false} NewPointFirst(ps: seq<Point>, s: seq<Point>, x: Point)
    requires SortedByTime(s) && AllNew(ps, s) && x in ps
    ensures FirstAt(InsertAll(ps, s), x)
  {
    InsertAllSorted(ps[1..], s);
    if ps[0].t != x.t {
      NewPointFirst(ps[1..], s, x);
      InsertKeepsFirst(ps[0], InsertAll(ps[1..], s), x);
    } else {
      assert exists i :: 0 <= i < |ps| && ps[i] == x;
      assert ps[0] == x;
      InsertedFirst(x, InsertAll(ps[1..], s));
    }
  }

  /** The last old point of the time of a new one is equal to it. */
  lemma LastOfSeries(s: seq<Point>, t: real)
    requires SortedByTime(s) && Covers(s, t) && HasTime(s, t)
    ensures LastAt(s, NewPoint(s, t))
  {
    CoversIff(s, t);
    var k := Split(s, t);
    var i :| 0 <= i < |s| && s[i].t == t;
    assert s[k-1].t == t;
    LineEnds(s[k-1], s[k]);
    assert IsLast(s, k - 1, NewPoint(s, t));
  }

  lemma InsertAllHasTime(ps: seq<Point>, s: seq<Point>, t: real)
    requires SortedByTime(s) && HasTime(InsertAll(ps, s), t)
    ensures HasTime(ps, t) || HasTime(s, t)
  {
    var r := InsertAll(ps, s);
    InsertAllSorted(ps, s);
    var i :| 0 <= i < |r| && r[i].t == t;
    assert r[i] in multiset(r);
    assert r[i] in ps || r[i] in s;
  }

  lemma HasTimeFirst(ps: seq<Point>, t: real)
    requires ps != [] && HasTime(ps, t)
    ensures ps[0].t == t || HasTime(ps[1..], t)
  {
    var i :| 0 <= i < |ps| && ps[i].t == t;
    if i > 0 {
      assert ps[1..][i-1].t == t;
    }
  }

  lemma {:induction false} NewPointLast(ps: seq<Point>, s: seq<Point>, x: Point)
    requires SortedByTime(s) && AllNew(ps, s) && Covers(s, x.t) && x == NewPoint(s, x.t)
    requires HasTime(ps, x.t) || HasTime(s, x.t)
    ensures LastAt(InsertAll(ps, s), x)
  {
    if ps == [] {
      LastOfSeries(s, x.t);
    } else {
      InsertAllSorted(ps[1..], s);
      if HasTime(ps[1..], x.t) || HasTime(s, x.t) {
        NewPointLast(ps[1..], s, x);
        InsertKeepsLast(ps[0], InsertAll(ps[1..], s), x);
      } else {
        HasTimeFirst(ps, x.t);
        assert ps[0] == x;
        if HasTime(InsertAll(ps[1..], s), x.t) {
          InsertAllHasTime(ps[1..], s, x.t);
        }
        InsertedLast(x, InsertAll(ps[1..], s));
      }
    }
  }

  /** At a given time inside the series, the new point's age is both the first and the last one there. */
  lemma NewPointAtBothEnds(times: seq<real>, s: seq<Point>, t: real)
    requires SortedByTime(s) && t in times && Covers(s, t)
    ensures FirstAt(Interpolated(times, s), NewPoint(s, t)) && LastAt(Interpolated(times, s), NewPoint(s, t))
  {
    var ps, x := NewPoints(times, s), NewPoint(s, t);
    NewPointsMember(times, s, x);
    forall i | 0 <= i < |ps| ensures Covers(s, ps[i].t) && ps[i] == NewPoint(s, ps[i].t) {
      NewPointsMember(times, s, ps[i]);
    }
    SortIsInsertAll(ps, s);
    NewPointFirst(ps, s, x);
    assert HasTime(ps, t);
    NewPointLast(ps, s, x);
  }

  /** A section of a series that has been interpolated at its ends begins and ends there, each end exactly if
      it is within the series; and then, but for the series' last time, with the age of the series at that time,
      after a fall if there is one. */
  lemma InterpolatedSectionIff(times: seq<real>, s: seq<Point>, a: real, b: real)
    requires SortedByTime(s) && s != [] && a in times && b in times && a <= b
    ensures var section := Between(Interpolated(times, s), a, b);
            && (BeginsAt(section, a) <==> s[0].t <= a <= s[|s|-1].t)
            && (EndsAt(section, b) <==> s[0].t <= b <= s[|s|-1].t)
            && (Covers(s, a) ==> section != [] && section[0] == NewPoint(s, a))
            && (Covers(s, b) ==> section != [] && section[|section|-1] == NewPoint(s, b))
  {
    var r := Interpolated(times, s);
    InterpolatedHasTime(times, s, a);
    InterpolatedHasTime(times, s, b);
    SectionEndsIff(r, a, b);
    if Covers(s, a) {
      NewPointAtBothEnds(times, s, a);
      FirstOfSection(r, a, b, NewPoint(s, a));
    }
    if Covers(s, b) {
      NewPointAtBothEnds(times, s, b);
      LastOfSection(r, a, b, NewPoint(s, b));
    }
  }

  lemma FirstOfSection(r: seq<Point>, a: real, b: real, x: Point)
    requires SortedByTime(r) && a == x.t <= b && FirstAt(r, x)
    ensures var section := Between(r, a, b);
            section != [] && section[0] == x
  {
    var j, k := BetweenIsSlice(r, a, b);
    var i :| IsFirst(r, i, x);
    assert j <= i < k && r[j].t >= a;
  }

  lemma LastOfSection(r: seq<Point>, a: real, b: real, x: Point)
    requires SortedByTime(r) && a <= x.t == b && LastAt(r, x)
    ensures var section := Between(r, a, b);
            section != [] && section[|section|-1] == x
  {
    var j, k := BetweenIsSlice(r, a, b);
    var i :| IsLast(r, i, x);
    assert j <= i < k && r[k-1].t <= b;
  }

  // ---------- all sections of a pair

  /** A section's start is not later than its end. */
  lemma StartBeforeEnd(s: seq<Sample>, limit: real, i: nat)
    requires s != [] && OrderedTimes(s) && i < |Starts(s, limit)|
    requires Indices(s, Starts(s, limit)) && Indices(s, Ends(s, limit))
    ensures i < |Ends(s, limit)|
    ensures TimesAt(s, Starts(s, limit))[i] <= TimesAt(s, Ends(s, limit))[i]
  {
    var starts, ends := Starts(s, limit), Ends(s, limit);
    SectionsAreMaximalRuns(s, limit);
    assert Listed(starts, ends, starts[i], ends[i]);
    assert MaximalRun(s, limit, starts[i], ends[i]);
  }

  lemma NotBeforeOrdered(s: seq<Sample>, from: real)
    requires OrderedTimes(s)
    ensures OrderedTimes(NotBefore(s, from))
    ensures forall x :: x in NotBefore(s, from) ==> x.t >= from
  {
    var k := NotBeforeIsTail(s, from);
  }

  /** Sections by distance: each one begins at its start and ends at its end, unless that lies beyond the
      series. */
  lemma DistSectionEnds(sections: seq<seq<Point>>, s: seq<Point>, distTs: seq<Sample>, R: real, i: nat)
    requires s != [] && SortedByTime(s) && OrderedTimes(distTs) && NotBefore(distTs, s[0].t) != []
    requires var ds := NotBefore(distTs, s[0].t);
             Indices(ds, Starts(ds, R)) && Indices(ds, Ends(ds, R))
             && var starts, ends := TimesAt(ds, Starts(ds, R)), TimesAt(ds, Ends(ds, R));
                CutOut(sections, Interpolated(starts + ends, s), starts, ends) && i < |sections|
    ensures var ds := NotBefore(distTs, s[0].t);
            var start, end := ds[Starts(ds, R)[i]].t, ds[Ends(ds, R)[i]].t;
            && (BeginsAt(sections[i], start) <==> start <= s[|s|-1].t)
            && (EndsAt(sections[i], end) <==> end <= s[|s|-1].t)
  {
    var ds := NotBefore(distTs, s[0].t);
    var starts, ends := TimesAt(ds, Starts(ds, R)), TimesAt(ds, Ends(ds, R));
    NotBeforeOrdered(distTs, s[0].t);
    StartBeforeEnd(ds, R, i);
    assert starts[i] in starts + ends && ends[i] in starts + ends;
    assert ds[Starts(ds, R)[i]] in ds && ds[Ends(ds, R)[i]] in ds;
    InterpolatedSectionIff(starts + ends, s, starts[i], ends[i]);
  }

  /** Hop counts are sampled at the receptions, and there is an age at each of them. */
  ghost predicate SampledAt(samples: seq<Sample>, rs: seq<Point>) {
    |samples| == |rs| && forall i :: 0 <= i < |rs| ==> samples[i].t == rs[i].t
  }

  /** So sections by hop count need no interpolation to begin at their starts and end at their ends. */
  lemma HopSectionEnds(sections: seq<seq<Point>>, s: seq<Point>, rs: seq<Point>, samples: seq<Sample>,
                       limit: real, i: nat)
    requires rs != [] && SortedByTime(WithSentinel(rs)) && s == Sawtooth(WithSentinel(rs)) && SampledAt(samples, rs)
    requires Indices(samples, Starts(samples, limit)) && Indices(samples, Ends(samples, limit))
    requires var starts, ends := TimesAt(samples, Starts(samples, limit)), TimesAt(samples, Ends(samples, limit));
             CutOut(sections, s, starts, ends) && i < |sections|
    ensures var starts, ends := TimesAt(samples, Starts(samples, limit)), TimesAt(samples, Ends(samples, limit));
            BeginsAt(sections[i], starts[i]) && EndsAt(sections[i], ends[i])
  {
    var starts, ends := Starts(samples, limit), Ends(samples, limit);
    assert forall k :: 0 <= k < |rs| ==> WithSentinel(rs)[k] == rs[k];
    assert OrderedTimes(samples);
    StartBeforeEnd(samples, limit, i);
    SawtoothKeepsTimeOrder(WithSentinel(rs));
    ReceptionHasPoint(WithSentinel(rs), starts[i]);
    ReceptionHasPoint(WithSentinel(rs), ends[i]);
    SectionEndsIff(s, samples[starts[i]].t, samples[ends[i]].t);
  }
}
