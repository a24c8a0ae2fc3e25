/**
 utils/check-style.py: whether a rewritten patchset, once printed, is read back the same. A repaired line can
 turn into what the parser takes for a file name; the theorem says exactly when.
 */
module RewriteRoundTrip {
  import opened Basics
  import opened DiffRoundTrip
  import opened PatchObjects
  import opened PatchRewriting
  import opened TrailingWhitespace
  import opened UnifiedDiff

  /** The i-th destination line is an added line "++" whose source line, in its turn, is "++ ": repaired, it is
      printed as "+++ ", like the name of a destination file. */
  ghost predicate MakesName(kinds: seq<LineType>, texts: seq<string>, i: int)
    requires |kinds| == |texts|
  {
    SidesOf(kinds);
    0 <= i < Min(|SrcAt(kinds)|, |DstAt(kinds)|) && kinds[DstAt(kinds)[i]] == Dst
    && texts[DstAt(kinds)[i]] == "++" && InTurn(SrcAt(kinds), DstAt(kinds), texts, i) == "++ "
  }

  /** A line that does not look like a name yet does so with one more blank just if it is "++". */
  lemma BlankMakesName(t: string, d: string)
    requires !("++ " <= d)
    ensures LostBlank(t, d) && "++ " <= t <==> d == "++" && t == "++ "
  {
    if LostBlank(t, d) && "++ " <= t {
      var n := |t| - 1;
      assert t == d + [t[n]] && |d| == n;
    }
  }

  /** As far as a single line is concerned: the rewritten line is clean unless it has become such a name. */
  lemma RewrittenLineClean(ls: seq<Line>, k: nat)
    requires k < |ls| && forall j :: 0 <= j < |ls| ==> CleanLine(ls[j])
    ensures CleanLine(RewriteLines(ls)[k])
       <==> forall i :: MakesName(KindsIn(ls), TextsIn(ls), i) ==> DstAt(KindsIn(ls))[i] != k
  {
    var kinds, texts := KindsIn(ls), TextsIn(ls);
    var src, dst := SrcAt(kinds), DstAt(kinds);
    var n := Min(|src|, |dst|);
    SidesOf(kinds);
    LineOutcome(kinds, texts, k);
    FixedFromTexts(src, dst, texts, n);
    var t := FixedChunk(kinds, texts)[k];
    assert '\n' !in t by {
      var j :| 0 <= j < |texts| && texts[j] == t;
      assert CleanLine(ls[j]);
    }
    assert CleanLine(ls[k]);
    if ls[k].kind == Dst {
      if i :| 0 <= i < n && dst[i] == k {
        RepairedLineClean(ls, i);
        assert forall j :: MakesName(kinds, texts, j) && dst[j] == k ==> j == i;
      }
    } else {
      assert forall i :: MakesName(kinds, texts, i) ==> kinds[dst[i]] == Dst;
      assert kinds[k] == ls[k].kind;
    }
  }

  lemma RepairedLineClean(ls: seq<Line>, i: nat)
    requires forall j :: 0 <= j < |ls| ==> CleanLine(ls[j])
    requires i < Min(|SrcAt(KindsIn(ls))|, |DstAt(KindsIn(ls))|)
    ensures Sides(KindsIn(ls), SrcAt(KindsIn(ls)), DstAt(KindsIn(ls)))
    ensures ls[DstAt(KindsIn(ls))[i]].kind == Dst ==>
              ("++ " <= RewriteLines(ls)[DstAt(KindsIn(ls))[i]].text <==> MakesName(KindsIn(ls), TextsIn(ls), i))
  {
    var kinds, texts := KindsIn(ls), TextsIn(ls);
    SidesOf(kinds);
    var src, dst := SrcAt(kinds), DstAt(kinds);
    var k := dst[i];
    LineOutcome(kinds, texts, k);
    if ls[k].kind == Dst {
      assert CleanLine(ls[k]) && texts[k] == ls[k].text && kinds[k] == Dst;
      BlankMakesName(InTurn(src, dst, texts, i), texts[k]);
    }
  }

  /** Some repaired line of the chunk turns into what looks like the name of a file. */
  ghost predicate NameInChunk(c: Chunk) {
    exists i :: MakesName(KindsIn(c.lines), TextsIn(c.lines), i)
  }

  lemma RewrittenChunkClean(c: Chunk)
    requires CleanChunk(c)
    ensures CleanChunk(RewriteChunk(c)) <==> !NameInChunk(c)
  {
    var ls, kinds, texts := c.lines, KindsIn(c.lines), TextsIn(c.lines);
    forall k | 0 <= k < |ls|
      ensures CleanLine(RewriteLines(ls)[k]) <==> forall i :: MakesName(kinds, texts, i) ==> DstAt(kinds)[i] != k
    {
      RewrittenLineClean(ls, k);
    }
    if i :| MakesName(kinds, texts, i) {
      SidesOf(kinds);
      assert !CleanLine(RewriteLines(ls)[DstAt(kinds)[i]]);
    }
  }

  /** No chunk that the loops get to has such a line. */
  ghost predicate NoNames(ps: seq<FileDiff>) {
    forall i, a :: 0 <= i < |ps| && 0 <= a < |ps[i].chunks| && Reached(ps, i, a) ==> !NameInChunk(ps[i].chunks[a])
  }

  lemma RewrittenCleanIff(ps: seq<FileDiff>)
    requires Clean(ps)
    ensures Clean(Rewritten(ps)) <==> NoNames(ps)
  {
    var qs := Rewritten(ps);
    forall i, a | 0 <= i < |ps| && 0 <= a < |ps[i].chunks|
      ensures CleanChunk(qs[i].chunks[a]) <==> (Reached(ps, i, a) ==> !NameInChunk(ps[i].chunks[a]))
    {
      assert CleanPatch(ps[i]) && CleanChunk(ps[i].chunks[a]);
      RewrittenChunkClean(ps[i].chunks[a]);
    }
    if Clean(qs) {
      forall i, a | 0 <= i < |ps| && 0 <= a < |ps[i].chunks| && Reached(ps, i, a)
        ensures !NameInChunk(ps[i].chunks[a])
      {
        assert CleanPatch(qs[i]) && CleanChunk(qs[i].chunks[a]);
      }
    } else {
      var i :| 0 <= i < |qs| && !CleanPatch(qs[i]);
      assert CleanPatch(ps[i]);
      var a :| 0 <= a < |qs[i].chunks| && !CleanChunk(qs[i].chunks[a]);
      assert Reached(ps, i, a) && NameInChunk(ps[i].chunks[a]);
    }
  }

  /** The rewritten patchset of a patch file, printed and parsed again, is the same exactly when no repaired
      line turns into the name of a file. */
  lemma RewrittenReadsBackIff(lines: seq<string>)
    requires Parse(lines).Some?
    ensures var ps := Parse(lines).value;
            Parse(ReadLines(Document(Print(Rewritten(ps))))) == Some(Rewritten(ps)) <==> NoNames(ps)
  {
    var ps := Parse(lines).value;
    ParsedIsClean(lines);
    RewrittenCleanIff(ps);
    RoundTripIff(Rewritten(ps));
  }

  lemma NameExample(c: Chunk)
    requires c.lines == [Line(Src, "++ "), Line(Dst, "++")]
    ensures NameInChunk(c)
  {
    var kinds, texts := KindsIn(c.lines), TextsIn(c.lines);
    TwoSides(kinds, Dst);
    assert MakesName(kinds, texts, 0);
  }

  /** A patch that takes the blank from a line "++ " is read, but once rewritten it is not read back. */
  lemma RewriteBreaksRoundTrip(ps: seq<FileDiff>, c: Chunk)
    requires ps == [FileDiff("a", "b", [c])] && c == Chunk(1, 1, [Line(Src, "++ "), Line(Dst, "++")])
    ensures Parse(ReadLines(Document(Print(ps)))) == Some(ps)
    ensures Parse(ReadLines(Document(Print(Rewritten(ps))))) != Some(Rewritten(ps))
  {
    NotPrefix("-- ", "++ ");
    assert CleanLine(c.lines[0]) && CleanLine(c.lines[1]);
    assert CleanChunk(c) && CleanPatch(ps[0]) && Clean(ps);
    RoundTripIff(ps);
    NameExample(ps[0].chunks[0]);
    assert Reached(ps, 0, 0);
    RewrittenCleanIff(ps);
    RoundTripIff(Rewritten(ps));
  }
}
