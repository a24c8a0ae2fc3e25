/**
 utils/check-style.py: the loops of `remove_trailing_whitespace_changes`, which put a trailing blank that a
 patch removes back into the patch's own line objects, and what aliasing between its two sides can do.
 */
module TrailingWhitespace {
  import opened PatchObjects
  import opened Sequences
  import opened UnifiedDiff

  // ---------- the operation on values

  /** src and dst are positions of source and of destination lines, each in order. */
  ghost predicate Sides(kinds: seq<LineType>, src: seq<nat>, dst: seq<nat>) {
    && Within(src, |kinds|) && (forall i :: 0 <= i < |src| ==> IsSrc(kinds[src[i]]))
    && Within(dst, |kinds|) && Ascending(dst) && (forall i :: 0 <= i < |dst| ==> IsDst(kinds[dst[i]]))
  }

  lemma {:induction false} SrcAtIsSrc(kinds: seq<LineType>)
    ensures Within(SrcAt(kinds), |kinds|)
    ensures forall i :: 0 <= i < |SrcAt(kinds)| ==> IsSrc(kinds[SrcAt(kinds)[i]])
  {
    if kinds != [] {
      var n := |kinds| - 1;
      var ks := SrcAt(kinds[..n]);
      SrcAtIsSrc(kinds[..n]);
      forall i | 0 <= i < |SrcAt(kinds)| ensures SrcAt(kinds)[i] < |kinds| && IsSrc(kinds[SrcAt(kinds)[i]]) {
        assert i < |ks| ==> SrcAt(kinds)[i] == ks[i] && kinds[..n][ks[i]] == kinds[ks[i]];
      }
    }
  }

  lemma {:induction false} DstAtIsDst(kinds: seq<LineType>)
    ensures Within(DstAt(kinds), |kinds|)
    ensures forall i :: 0 <= i < |DstAt(kinds)| ==> IsDst(kinds[DstAt(kinds)[i]])
  {
    if kinds != [] {
      var n := |kinds| - 1;
      var ks := DstAt(kinds[..n]);
      DstAtIsDst(kinds[..n]);
      forall i | 0 <= i < |DstAt(kinds)| ensures DstAt(kinds)[i] < |kinds| && IsDst(kinds[DstAt(kinds)[i]]) {
        assert i < |ks| ==> DstAt(kinds)[i] == ks[i] && kinds[..n][ks[i]] == kinds[ks[i]];
      }
    }
  }

  lemma {:induction false} SidesAscending(kinds: seq<LineType>)
    ensures Ascending(SrcAt(kinds)) && Ascending(DstAt(kinds))
  {
    if kinds != [] {
      SidesAscending(kinds[..|kinds|-1]);
      SrcAtIsSrc(kinds[..|kinds|-1]);
      DstAtIsDst(kinds[..|kinds|-1]);
      AscendingMore(SrcAt(kinds[..|kinds|-1]), |kinds| - 1);
      AscendingMore(DstAt(kinds[..|kinds|-1]), |kinds| - 1);
    }
  }

  lemma SidesOf(kinds: seq<LineType>)
    ensures Sides(kinds, SrcAt(kinds), DstAt(kinds))
  {
    SrcAtIsSrc(kinds);
    DstAtIsDst(kinds);
    SidesAscending(kinds);
  }

  /** A position is on the source side's list just if its line is a removed or a context line, and on the destination
      side's just if it is an added or a context line; each list is in order. */
  lemma SidesComplete(kinds: seq<LineType>, k: nat)
    requires k < |kinds|
    ensures k in SrcAt(kinds) <==> kinds[k] == Src || kinds[k] == Both
    ensures k in DstAt(kinds) <==> kinds[k] == Dst || kinds[k] == Both
    ensures Ascending(SrcAt(kinds)) && Ascending(DstAt(kinds))
  {
    SidesAscending(kinds);
    OnItsLists(kinds, k);
  }

  lemma {:induction false} OnItsLists(kinds: seq<LineType>, k: nat)
    requires k < |kinds|
    ensures IsSrc(kinds[k]) <==> k in SrcAt(kinds)
    ensures IsDst(kinds[k]) <==> k in DstAt(kinds)
  {
    var n := |kinds| - 1;
    SrcAtIsSrc(kinds[..n]);
    DstAtIsDst(kinds[..n]);
    if k < n {
      OnItsLists(kinds[..n], k);
    }
  }

  predicate IsBlank(c: char) {
    c == ' ' || c == '\t'
  }

  /** ^(.*)([ \t]+)$ matches s, and what precedes its second group is d: since the first group is
      greedy, the second one holds just the last character. */
  predicate LostBlank(s: string, d: string) {
    s != "" && IsBlank(s[|s|-1]) && s[..|s|-1] == d
  }

  /** So exactly one lost blank is put back; a line that lost two keeps its difference. */
  lemma LostBlankIff(s: string, d: string)
    ensures LostBlank(s, d) <==> s == d + " " || s == d + "\t"
  {
    if LostBlank(s, d) {
      assert s == d + [s[|s|-1]];
    }
    if s == d + " " || s == d + "\t" {
      assert s[..|s|-1] == d;
    }
  }

  ghost function FixStep(texts: seq<string>, s: nat, d: nat): seq<string>
    requires s < |texts| && d < |texts|
  {
    if LostBlank(texts[s], texts[d]) then texts[d := texts[s]] else texts
  }

  /** The texts after the first n pairs. */
  ghost function Fixed(src: seq<nat>, dst: seq<nat>, texts: seq<string>, n: nat): (r: seq<string>)
    requires Within(src, |texts|) && Within(dst, |texts|) && n <= |src| && n <= |dst|
    ensures |r| == |texts|
  {
    if n == 0 then texts else FixStep(Fixed(src, dst, texts, n - 1), src[n-1], dst[n-1])
  }

  /** The loop gets through a chunk only if it has at least as many destination as source lines. */
  ghost predicate Completes(kinds: seq<LineType>) {
    |SrcAt(kinds)| <= |DstAt(kinds)|
  }

  lemma {:induction false} SideLengths(kinds: seq<LineType>)
    ensures |SrcAt(kinds)| == multiset(kinds)[Src] + multiset(kinds)[Both]
    ensures |DstAt(kinds)| == multiset(kinds)[Dst] + multiset(kinds)[Both]
  {
    if kinds != [] {
      SideLengths(kinds[..|kinds|-1]);
      assert kinds == kinds[..|kinds|-1] + [kinds[|kinds|-1]];
    }
  }

  /** That is, if it removes no more lines than it adds. */
  lemma CompletesIff(kinds: seq<LineType>)
    ensures Completes(kinds) <==> multiset(kinds)[Src] <= multiset(kinds)[Dst]
  {
    SideLengths(kinds);
  }

  function Min(a: nat, b: nat): nat {
    if a < b then a else b
  }

  /** The loop runs over the source lines and breaks off where the destination lines run out. */
  ghost function FixedChunk(kinds: seq<LineType>, texts: seq<string>): (r: seq<string>)
    requires |kinds| == |texts|
    ensures |r| == |texts|
  {
    SidesOf(kinds);
    Fixed(SrcAt(kinds), DstAt(kinds), texts, Min(|SrcAt(kinds)|, |DstAt(kinds)|))
  }

  lemma AllFixed(kinds: seq<LineType>, texts: seq<string>, n: nat)
    requires |kinds| == |texts| && n == Min(|SrcAt(kinds)|, |DstAt(kinds)|)
    requires Within(SrcAt(kinds), |texts|) && Within(DstAt(kinds), |texts|)
    ensures Fixed(SrcAt(kinds), DstAt(kinds), texts, n) == FixedChunk(kinds, texts)
  {
  }

  // ---------- the operation on objects

  /** One pair of lines: append what the source line ends in if that is all the two differ in. */
  method FixPair(ghost lines: seq<PatchChunkLine>, s: PatchChunkLine, d: PatchChunkLine, ghost i: nat, ghost j: nat)
    requires NoDup(lines) && i < |lines| && lines[i] == s && j < |lines| && lines[j] == d
    modifies d`line
    ensures Kinds(lines) == old(Kinds(lines))
    ensures Texts(lines) == FixStep(old(Texts(lines)), i, j)
  {
    var n := |s.line|;
    if n > 0 && IsBlank(s.line[n-1]) && s.line[..n-1] == d.line {
      ghost var before := Texts(lines);
      assert s.line == s.line[..n-1] + [s.line[n-1]];
      d.AppendToLine([s.line[n-1]]);
      assert Texts(lines) == before[j := before[i]];
    }
  }

  /** One chunk; the result tells whether the loop ended without running out of destination lines. */
  method RemoveFromChunk(chunk: PatchChunk) returns (ok: bool)
    requires NoDup(chunk.lines)
    modifies chunk.lines
    ensures Kinds(chunk.lines) == old(Kinds(chunk.lines))
    ensures Texts(chunk.lines) == FixedChunk(old(Kinds(chunk.lines)), old(Texts(chunk.lines)))
    ensures ok <==> Completes(old(Kinds(chunk.lines)))
  {
    var src := chunk.Src();
    var dst := chunk.Dst();
    ghost var lines := chunk.lines;
    ghost var kinds, texts := Kinds(lines), Texts(lines);
    ghost var srcAt, dstAt := SrcAt(kinds), DstAt(kinds);
    for i := 0 to |src|
      invariant i <= |dst| && Kinds(lines) == kinds
      invariant Texts(lines) == Fixed(srcAt, dstAt, texts, i)
    {
      if i >= |dst| {
        AllFixed(kinds, texts, i);
        return false;
      }
      FixPair(lines, src[i], dst[i], srcAt[i], dstAt[i]);
      assert Fixed(srcAt, dstAt, texts, i + 1) == FixStep(Fixed(srcAt, dstAt, texts, i), srcAt[i], dstAt[i]);
    }
    AllFixed(kinds, texts, |src|);
    return true;
  }

  // ---------- what it does to the two sides

  /** The i-th destination line is a context line that equals the i-th source line but for a final blank. */
  ghost predicate ContextHit(kinds: seq<LineType>, src: seq<nat>, dst: seq<nat>, texts: seq<string>, i: nat)
    requires Sides(kinds, src, dst) && |kinds| == |texts| && i < |src| && i < |dst|
  {
    kinds[dst[i]] == Both && LostBlank(texts[src[i]], texts[dst[i]])
  }

  ghost predicate SameSource(kinds: seq<LineType>, before: seq<string>, after: seq<string>)
    requires |kinds| == |before| == |after|
  {
    forall k :: 0 <= k < |kinds| && IsSrc(kinds[k]) ==> after[k] == before[k]
  }

  ghost predicate OnlyLonger(before: seq<string>, after: seq<string>) {
    |before| == |after| && forall k :: 0 <= k < |before| ==> |before[k]| <= |after[k]|
  }

  lemma {:induction false} TextsOnlyGrow(src: seq<nat>, dst: seq<nat>, texts: seq<string>, m: nat, n: nat)
    requires Within(src, |texts|) && Within(dst, |texts|) && m <= n <= |src| && n <= |dst|
    ensures OnlyLonger(Fixed(src, dst, texts, m), Fixed(src, dst, texts, n))
  {
    if m < n {
      TextsOnlyGrow(src, dst, texts, m, n - 1);
    }
  }

  /** What the i-th destination line becomes. */
  ghost function Repaired(src: seq<nat>, dst: seq<nat>, texts: seq<string>, i: nat): string
    requires Within(src, |texts|) && Within(dst, |texts|) && i < |dst|
  {
    if i < |src| && LostBlank(texts[src[i]], texts[dst[i]]) then texts[src[i]] else texts[dst[i]]
  }

  /** As long as no context line was hit, source lines keep their text, and each destination line is its
      old self or, if only a blank was missing, its source line. */
  lemma {:induction false} FixedSoFar(kinds: seq<LineType>, src: seq<nat>, dst: seq<nat>, texts: seq<string>, n: nat)
    requires Sides(kinds, src, dst) && |kinds| == |texts| && n <= |src| && n <= |dst|
    requires forall i :: 0 <= i < n ==> !ContextHit(kinds, src, dst, texts, i)
    ensures SameSource(kinds, texts, Fixed(src, dst, texts, n))
    ensures forall i :: 0 <= i < n ==> Fixed(src, dst, texts, n)[dst[i]] == Repaired(src, dst, texts, i)
    ensures forall i :: n <= i < |dst| ==> Fixed(src, dst, texts, n)[dst[i]] == texts[dst[i]]
  {
    if n > 0 {
      FixedSoFar(kinds, src, dst, texts, n - 1);
      var r := Fixed(src, dst, texts, n - 1);
      assert r[src[n-1]] == texts[src[n-1]] && r[dst[n-1]] == texts[dst[n-1]];
      assert !ContextHit(kinds, src, dst, texts, n - 1);
    }
  }

  lemma FirstHit(kinds: seq<LineType>, src: seq<nat>, dst: seq<nat>, texts: seq<string>, k: nat) returns (i: nat)
    requires Sides(kinds, src, dst) && |kinds| == |texts| && k < |src| && k < |dst|
    requires ContextHit(kinds, src, dst, texts, k)
    ensures i <= k && ContextHit(kinds, src, dst, texts, i)
    ensures forall j :: 0 <= j < i ==> !ContextHit(kinds, src, dst, texts, j)
  {
    i := 0;
    while !ContextHit(kinds, src, dst, texts, i)
      invariant i <= k
      invariant forall j :: 0 <= j < i ==> !ContextHit(kinds, src, dst, texts, j)
      decreases k - i
    {
      i := i + 1;
    }
  }

  /** A context line that is hit makes the source side longer for good. */
  lemma HitChangesSource(kinds: seq<LineType>, src: seq<nat>, dst: seq<nat>, texts: seq<string>, k: nat, n: nat)
    requires Sides(kinds, src, dst) && |kinds| == |texts| && k < n <= |src| && n <= |dst|
    requires ContextHit(kinds, src, dst, texts, k)
    ensures !SameSource(kinds, texts, Fixed(src, dst, texts, n))
  {
    var i := FirstHit(kinds, src, dst, texts, k);
    FixedSoFar(kinds, src, dst, texts, i);
    var r := Fixed(src, dst, texts, i);
    assert r[src[i]] == texts[src[i]] && r[dst[i]] == texts[dst[i]];
    TextsOnlyGrow(src, dst, texts, i + 1, n);
    assert |Fixed(src, dst, texts, n)[dst[i]]| > |texts[dst[i]]|;
  }

  /** No context line of a chunk equals the source line it is paired with, except for a final blank. */
  ghost predicate NoContextHit(kinds: seq<LineType>, texts: seq<string>)
    requires |kinds| == |texts|
  {
    SidesOf(kinds);
    forall i :: 0 <= i < Min(|SrcAt(kinds)|, |DstAt(kinds)|) ==>
      !ContextHit(kinds, SrcAt(kinds), DstAt(kinds), texts, i)
  }

  /** The source side of a chunk survives exactly when no context line is hit. */
  lemma SourceUnchangedIff(kinds: seq<LineType>, texts: seq<string>)
    requires |kinds| == |texts|
    ensures SameSource(kinds, texts, FixedChunk(kinds, texts)) <==> NoContextHit(kinds, texts)
  {
    var n := Min(|SrcAt(kinds)|, |DstAt(kinds)|);
    SidesOf(kinds);
    if NoContextHit(kinds, texts) {
      FixedSoFar(kinds, SrcAt(kinds), DstAt(kinds), texts, n);
    } else {
      var k :| 0 <= k < n && ContextHit(kinds, SrcAt(kinds), DstAt(kinds), texts, k);
      HitChangesSource(kinds, SrcAt(kinds), DstAt(kinds), texts, k, n);
    }
  }

  lemma TwoSides(kinds: seq<LineType>, k: LineType)
    requires kinds == [Src, k] && IsDst(k)
    ensures SrcAt(kinds) == if k == Both then [0, 1] else [0]
    ensures DstAt(kinds) == [1]
  {
    var one := kinds[..1];
    assert one == [Src] && one[..0] == [];
    assert SrcAt([]) == [] && DstAt([]) == [];
    assert SrcAt(one) == [0] && DstAt(one) == [];
  }

  /** A removed line "x " before a context line "x" is paired with it: the context line, which is on the source
      side too, gets the blank. */
  lemma SourceCanChange(kinds: seq<LineType>, texts: seq<string>)
    requires kinds == [Src, Both] && texts == ["x ", "x"]
    ensures !SameSource(kinds, texts, FixedChunk(kinds, texts))
  {
    TwoSides(kinds, Both);
    SidesOf(kinds);
    assert ContextHit(kinds, SrcAt(kinds), DstAt(kinds), texts, 0);
    SourceUnchangedIff(kinds, texts);
  }

  /** Then every destination line is unchanged, or is now its index-paired source line; beyond the last pair
      it is unchanged. */
  lemma DestinationOutcome(kinds: seq<LineType>, texts: seq<string>, i: nat)
    requires |kinds| == |texts| && NoContextHit(kinds, texts) && i < |DstAt(kinds)|
    requires Within(SrcAt(kinds), |texts|) && Within(DstAt(kinds), |texts|)
    ensures FixedChunk(kinds, texts)[DstAt(kinds)[i]] == Repaired(SrcAt(kinds), DstAt(kinds), texts, i)
  {
    SidesOf(kinds);
    FixedSoFar(kinds, SrcAt(kinds), DstAt(kinds), texts, Min(|SrcAt(kinds)|, |DstAt(kinds)|));
  }

  // ---------- what every line becomes, context lines hit or not

  /** The text of the i-th source line when its turn comes: what it has become if, as a context line, it has
      been a destination line before. */
  ghost function InTurn(src: seq<nat>, dst: seq<nat>, texts: seq<string>, i: nat): string
    requires Within(src, |texts|) && Within(dst, |texts|) && i < |src| && i <= |dst|
    decreases i, 0
  {
    if exists j :: 0 <= j < i && dst[j] == src[i] then
      var j :| 0 <= j < i && dst[j] == src[i];
      Outcome(src, dst, texts, j)
    else texts[src[i]]
  }

  /** What the i-th destination line becomes. */
  ghost function Outcome(src: seq<nat>, dst: seq<nat>, texts: seq<string>, i: nat): string
    requires Within(src, |texts|) && Within(dst, |texts|) && i < |src| && i < |dst|
    decreases i, 1
  {
    if LostBlank(InTurn(src, dst, texts, i), texts[dst[i]]) then InTurn(src, dst, texts, i) else texts[dst[i]]
  }

  ghost predicate NotYet(dst: seq<nat>, n: nat, k: nat)
    requires n <= |dst|
  {
    forall i :: 0 <= i < n ==> dst[i] != k
  }

  ghost function Outcomes(src: seq<nat>, dst: seq<nat>, texts: seq<string>, n: nat): (os: seq<string>)
    requires Within(src, |texts|) && Within(dst, |texts|) && n <= |src| && n <= |dst|
    ensures |os| == n && forall i :: 0 <= i < n ==> os[i] == Outcome(src, dst, texts, i)
  {
    seq(n, i requires 0 <= i < n => Outcome(src, dst, texts, i))
  }

  lemma OutcomesMore(src: seq<nat>, dst: seq<nat>, texts: seq<string>, n: nat)
    requires Within(src, |texts|) && Within(dst, |texts|) && n < |src| && n < |dst|
    ensures Outcomes(src, dst, texts, n + 1) == Outcomes(src, dst, texts, n) + [Outcome(src, dst, texts, n)]
  {
  }

  /** r is texts with the first |os| destination lines replaced by os. */
  ghost predicate Placed(dst: seq<nat>, texts: seq<string>, os: seq<string>, r: seq<string>)
    requires Within(dst, |texts|) && |os| <= |dst|
  {
    && |r| == |texts|
    && (forall i :: 0 <= i < |os| ==> r[dst[i]] == os[i])
    && (forall k :: 0 <= k < |texts| && NotYet(dst, |os|, k) ==> r[k] == texts[k])
  }

  lemma PlacedMore(dst: seq<nat>, texts: seq<string>, os: seq<string>, r: seq<string>, o: string)
    requires Within(dst, |texts|) && Ascending(dst) && |os| < |dst| && Placed(dst, texts, os, r)
    ensures Placed(dst, texts, os + [o], r[dst[|os|] := o])
  {
    var n := |os|;
    forall k | 0 <= k < |texts| && NotYet(dst, n + 1, k) ensures NotYet(dst, n, k) && k != dst[n] {}
  }

  lemma TurnIs(src: seq<nat>, dst: seq<nat>, texts: seq<string>, n: nat, r: seq<string>)
    requires Within(src, |texts|) && Within(dst, |texts|) && n < |src| && n <= |dst|
    requires Placed(dst, texts, Outcomes(src, dst, texts, n), r)
    ensures r[src[n]] == InTurn(src, dst, texts, n)
  {
    if !(exists j :: 0 <= j < n && dst[j] == src[n]) {
      assert NotYet(dst, n, src[n]);
    }
  }

  lemma StepIsPlacing(r: seq<string>, s: nat, d: nat, t: string, u: string)
    requires s < |r| && d < |r| && r[s] == t && r[d] == u
    ensures FixStep(r, s, d) == r[d := if LostBlank(t, u) then t else u]
  {
    assert r[d := u] == r;
  }

  lemma {:induction false} FixedIs(src: seq<nat>, dst: seq<nat>, texts: seq<string>, n: nat)
    requires Within(src, |texts|) && Within(dst, |texts|) && Ascending(dst) && n <= |src| && n <= |dst|
    ensures Placed(dst, texts, Outcomes(src, dst, texts, n), Fixed(src, dst, texts, n))
  {
    if n > 0 {
      var m, r, os := n - 1, Fixed(src, dst, texts, n - 1), Outcomes(src, dst, texts, n - 1);
      FixedIs(src, dst, texts, m);
      TurnIs(src, dst, texts, m, r);
      assert NotYet(dst, m, dst[m]);
      StepIsPlacing(r, src[m], dst[m], InTurn(src, dst, texts, m), texts[dst[m]]);
      PlacedMore(dst, texts, os, r, Outcome(src, dst, texts, m));
      OutcomesMore(src, dst, texts, m);
    }
  }

  /** Every paired destination line becomes its outcome, and no other line changes. */
  lemma LineOutcome(kinds: seq<LineType>, texts: seq<string>, k: nat)
    requires k < |kinds| == |texts|
    ensures Sides(kinds, SrcAt(kinds), DstAt(kinds))
    ensures forall i :: 0 <= i < Min(|SrcAt(kinds)|, |DstAt(kinds)|) && DstAt(kinds)[i] == k
              ==> FixedChunk(kinds, texts)[k] == Outcome(SrcAt(kinds), DstAt(kinds), texts, i)
    ensures (forall i :: 0 <= i < Min(|SrcAt(kinds)|, |DstAt(kinds)|) ==> DstAt(kinds)[i] != k)
              ==> FixedChunk(kinds, texts)[k] == texts[k]
  {
    SidesOf(kinds);
    var n := Min(|SrcAt(kinds)|, |DstAt(kinds)|);
    FixedIs(SrcAt(kinds), DstAt(kinds), texts, n);
    if forall i :: 0 <= i < n ==> DstAt(kinds)[i] != k {
      assert NotYet(DstAt(kinds), n, k);
    }
  }

  /** Where no context line is hit, source lines stay what they were until their turn. */
  lemma UnhitInTurn(kinds: seq<LineType>, texts: seq<string>, i: nat)
    requires |kinds| == |texts| && NoContextHit(kinds, texts) && i < Min(|SrcAt(kinds)|, |DstAt(kinds)|)
    ensures Sides(kinds, SrcAt(kinds), DstAt(kinds))
    ensures InTurn(SrcAt(kinds), DstAt(kinds), texts, i) == texts[SrcAt(kinds)[i]]
  {
    SidesOf(kinds);
    FixedSoFar(kinds, SrcAt(kinds), DstAt(kinds), texts, i);
    FixedIs(SrcAt(kinds), DstAt(kinds), texts, i);
    TurnIs(SrcAt(kinds), DstAt(kinds), texts, i, Fixed(SrcAt(kinds), DstAt(kinds), texts, i));
  }

  /** No text comes from anywhere else. */
  lemma {:induction false} FixedFromTexts(src: seq<nat>, dst: seq<nat>, texts: seq<string>, n: nat)
    requires Within(src, |texts|) && Within(dst, |texts|) && n <= |src| && n <= |dst|
    ensures forall k :: 0 <= k < |texts| ==> Fixed(src, dst, texts, n)[k] in texts
  {
    if n > 0 {
      FixedFromTexts(src, dst, texts, n - 1);
    }
  }
}
