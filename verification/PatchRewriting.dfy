/**
 utils/check-style.py: `remove_trailing_whitespace_changes` as a whole, from the lines of a patch to the
 rewritten patchset.
 */
module PatchRewriting {
  import opened Basics
  import opened PatchObjects
  import opened Sequences
  import opened TrailingWhitespace
  import opened UnifiedDiff

  // ---------- the operation on values

  ghost function KindsIn(ls: seq<Line>): seq<LineType> {
    seq(|ls|, k requires 0 <= k < |ls| => ls[k].kind)
  }

  ghost function TextsIn(ls: seq<Line>): seq<string> {
    seq(|ls|, k requires 0 <= k < |ls| => ls[k].text)
  }

  ghost function RewriteLines(ls: seq<Line>): seq<Line> {
    var texts := FixedChunk(KindsIn(ls), TextsIn(ls));
    seq(|ls|, k requires 0 <= k < |ls| => Line(ls[k].kind, texts[k]))
  }

  ghost function RewriteChunk(c: Chunk): Chunk {
    c.(lines := RewriteLines(c.lines))
  }

  ghost predicate ChunkCompletes(c: Chunk) {
    Completes(KindsIn(c.lines))
  }

  /** Chunk b of patch j comes before chunk a of patch i. */
  predicate Before(j: int, b: int, i: int, a: int) {
    j < i || (j == i && b < a)
  }

  /** The loops get to chunk a of patch i: no chunk before it runs out of destination lines. */
  ghost predicate Reached(ps: seq<FileDiff>, i: int, a: int) {
    forall j, b :: 0 <= j < |ps| && 0 <= b < |ps[j].chunks| && Before(j, b, i, a) ==> ChunkCompletes(ps[j].chunks[b])
  }

  ghost function RewrittenChunks(ps: seq<FileDiff>, i: nat): seq<Chunk>
    requires i < |ps|
  {
    seq(|ps[i].chunks|, a requires 0 <= a < |ps[i].chunks| =>
      if Reached(ps, i, a) then RewriteChunk(ps[i].chunks[a]) else ps[i].chunks[a])
  }

  /** The patchset with every chunk that the loops get to rewritten. */
  ghost function Rewritten(ps: seq<FileDiff>): seq<FileDiff> {
    seq(|ps|, i requires 0 <= i < |ps| => ps[i].(chunks := RewrittenChunks(ps, i)))
  }

  ghost function KindCount(c: Chunk, kind: LineType): nat {
    multiset(KindsIn(c.lines))[kind]
  }

  /** A chunk is rewritten just if no chunk before it, of its own patch or an earlier one, removes more lines than it
      adds. */
  lemma RewrittenIff(ps: seq<FileDiff>, i: nat, a: nat)
    requires i < |ps| && a < |ps[i].chunks|
    ensures var stopped := exists j, b :: 0 <= j < |ps| && 0 <= b < |ps[j].chunks| && (j < i || (j == i && b < a))
                             && KindCount(ps[j].chunks[b], Src) > KindCount(ps[j].chunks[b], Dst);
            Rewritten(ps)[i].chunks[a] == if stopped then ps[i].chunks[a] else RewriteChunk(ps[i].chunks[a])
  {
    forall j, b | 0 <= j < |ps| && 0 <= b < |ps[j].chunks|
      ensures ChunkCompletes(ps[j].chunks[b])
         <==> KindCount(ps[j].chunks[b], Src) <= KindCount(ps[j].chunks[b], Dst)
    {
      CompletesIff(KindsIn(ps[j].chunks[b].lines));
    }
  }

  // ---------- the loops

  /** The patchset in the middle of the loops, about to look at chunk a of patch i. */
  ghost predicate RewrittenBefore(ps: seq<FileDiff>, qs: seq<FileDiff>, i: int, a: int) {
    && |qs| == |ps|
    && (forall j :: 0 <= j < |ps| ==>
          qs[j].src == ps[j].src && qs[j].dst == ps[j].dst && |qs[j].chunks| == |ps[j].chunks|)
    && (forall j, b :: 0 <= j < |ps| && 0 <= b < |ps[j].chunks| ==>
          qs[j].chunks[b] == if Before(j, b, i, a) then RewriteChunk(ps[j].chunks[b]) else ps[j].chunks[b])
  }

  ghost function WithRewritten(qs: seq<FileDiff>, i: nat, a: nat): seq<FileDiff>
    requires i < |qs| && a < |qs[i].chunks|
  {
    qs[i := qs[i].(chunks := qs[i].chunks[a := RewriteChunk(qs[i].chunks[a])])]
  }

  lemma ChunkText(c: PatchChunk, ls: seq<PatchChunkLine>, v: Chunk)
    requires c.lines == ls && ChunkIs(c, ls, v)
    ensures Kinds(ls) == KindsIn(v.lines) && Texts(ls) == TextsIn(v.lines)
  {
    assert forall k :: 0 <= k < |ls| ==> LineIs(ls[k], v.lines[k]);
  }

  lemma RewrittenText(c: PatchChunk, ls: seq<PatchChunkLine>, v: Chunk)
    requires c.srcPos == v.srcPos && c.dstPos == v.dstPos && |ls| == |v.lines|
    requires Kinds(ls) == KindsIn(v.lines) && Texts(ls) == FixedChunk(KindsIn(v.lines), TextsIn(v.lines))
    ensures ChunkIs(c, ls, RewriteChunk(v))
  {
    forall k | 0 <= k < |ls| ensures LineIs(ls[k], RewriteLines(v.lines)[k]) {
      assert Kinds(ls)[k] == KindsIn(v.lines)[k];
      assert Texts(ls)[k] == FixedChunk(KindsIn(v.lines), TextsIn(v.lines))[k];
    }
  }

  lemma LinesApart(lay: Layout, i: int, a: int, j: int, b: int)
    requires Shaped(lay) && Apart(lay) && ChunkAt(lay, i, a) && ChunkAt(lay, j, b)
    ensures NoDup(lay.lines[i][a])
    ensures !(j == i && b == a) ==> forall l :: l in lay.lines[j][b] ==> l !in lay.lines[i][a]
  {
    assert forall k :: 0 <= k < |lay.lines[i][a]| ==> LineAt(lay, i, a, k);
    assert forall k :: 0 <= k < |lay.lines[j][b]| ==> LineAt(lay, j, b, k);
  }

  /** All that a chunk says beside its lines. */
  ghost predicate HeadIs(c: PatchChunk, ls: seq<PatchChunkLine>, v: Chunk) {
    c.srcPos == v.srcPos && c.dstPos == v.dstPos && |ls| == |v.lines|
  }

  lemma OtherLines(lay: Layout, i: int, a: int)
    requires Shaped(lay) && Apart(lay) && ChunkAt(lay, i, a)
    ensures forall j, b, k :: LineAt(lay, j, b, k) && !(j == i && b == a) ==> lay.lines[j][b][k] !in lay.lines[i][a]
  {
    forall j, b, k | LineAt(lay, j, b, k) && !(j == i && b == a) ensures lay.lines[j][b][k] !in lay.lines[i][a] {
      LinesApart(lay, i, a, j, b);
    }
  }

  lemma MeansRewritten(lay: Layout, qs: seq<FileDiff>, i: nat, a: nat)
    requires Shaped(lay) && |qs| == |lay.patches| && ChunkAt(lay, i, a)
    requires forall j :: 0 <= j < |qs| ==> PatchIs(lay.patches[j], qs[j]) && |qs[j].chunks| == |lay.chunks[j]|
    requires ChunkIs(lay.chunks[i][a], lay.lines[i][a], RewriteChunk(qs[i].chunks[a]))
    requires forall j, b :: ChunkAt(lay, j, b) && !(j == i && b == a)
               ==> HeadIs(lay.chunks[j][b], lay.lines[j][b], qs[j].chunks[b])
    requires forall j, b, k :: LineAt(lay, j, b, k) && !(j == i && b == a)
               ==> k < |qs[j].chunks[b].lines| && LineIs(lay.lines[j][b][k], qs[j].chunks[b].lines[k])
    ensures Means(lay, WithRewritten(qs, i, a))
  {
  }

  method RewriteOne(chunk: PatchChunk, ghost lay: Layout, ghost qs: seq<FileDiff>, ghost i: nat, ghost a: nat)
    returns (ok: bool)
    requires Represents(lay, qs) && ChunkAt(lay, i, a) && lay.chunks[i][a] == chunk
    modifies chunk.lines
    ensures ok <==> ChunkCompletes(qs[i].chunks[a])
    ensures Represents(lay, WithRewritten(qs, i, a))
  {
    ghost var ls, v := lay.lines[i][a], qs[i].chunks[a];
    assert chunk.lines == ls;
    LinesApart(lay, i, a, i, a);
    ChunkText(chunk, ls, v);
    OtherLines(lay, i, a);
    ok := RemoveFromChunk(chunk);
    RewrittenText(chunk, ls, v);
    MeansRewritten(lay, qs, i, a);
  }

  // ---------- from lines to the rewritten patchset

  lemma ReachedNext(ps: seq<FileDiff>, i: nat, a: nat)
    requires i < |ps| && a < |ps[i].chunks| && Reached(ps, i, a)
    ensures Reached(ps, i, a + 1) <==> ChunkCompletes(ps[i].chunks[a])
  {
    assert Before(i, a, i, a + 1);
  }

  lemma RewrittenNext(ps: seq<FileDiff>, qs: seq<FileDiff>, i: nat, a: nat)
    requires RewrittenBefore(ps, qs, i, a) && i < |ps| && a < |ps[i].chunks|
    ensures a < |qs[i].chunks| && qs[i].chunks[a] == ps[i].chunks[a]
    ensures RewrittenBefore(ps, WithRewritten(qs, i, a), i, a + 1)
  {
  }

  lemma NextPatch(ps: seq<FileDiff>, qs: seq<FileDiff>, i: nat)
    requires i < |ps| && RewrittenBefore(ps, qs, i, |ps[i].chunks|)
    ensures RewrittenBefore(ps, qs, i + 1, 0)
  {
  }

  lemma ReachedNextPatch(ps: seq<FileDiff>, i: nat)
    requires i < |ps| && Reached(ps, i, |ps[i].chunks|)
    ensures Reached(ps, i + 1, 0)
  {
  }

  /** Where the loops stop, all that they can get to is rewritten. */
  lemma RewrittenAtStop(ps: seq<FileDiff>, qs: seq<FileDiff>, i: nat, a: nat)
    requires RewrittenBefore(ps, qs, i, a)
    requires forall j, b :: 0 <= j < |ps| && 0 <= b < |ps[j].chunks| ==> (Before(j, b, i, a) <==> Reached(ps, j, b))
    ensures qs == Rewritten(ps)
  {
    forall j | 0 <= j < |ps| ensures qs[j] == Rewritten(ps)[j] {
      assert qs[j].chunks == RewrittenChunks(ps, j);
    }
  }

  lemma StopsAtIncomplete(ps: seq<FileDiff>, qs: seq<FileDiff>, i: nat, a: nat)
    requires i < |ps| && a < |ps[i].chunks| && Reached(ps, i, a) && !ChunkCompletes(ps[i].chunks[a])
    requires RewrittenBefore(ps, qs, i, a + 1)
    ensures qs == Rewritten(ps)
  {
    forall j, b | 0 <= j < |ps| && 0 <= b < |ps[j].chunks| ensures Before(j, b, i, a + 1) <==> Reached(ps, j, b) {
      if !Before(j, b, i, a + 1) {
        assert Before(i, a, j, b);
      }
    }
    RewrittenAtStop(ps, qs, i, a + 1);
  }

  lemma StopsAtEnd(ps: seq<FileDiff>, qs: seq<FileDiff>)
    requires Reached(ps, |ps|, 0) && RewrittenBefore(ps, qs, |ps|, 0)
    ensures qs == Rewritten(ps)
  {
    forall j, b | 0 <= j < |ps| && 0 <= b < |ps[j].chunks| ensures Reached(ps, j, b) {
      forall k, c | 0 <= k < |ps| && 0 <= c < |ps[k].chunks| && Before(k, c, j, b)
        ensures ChunkCompletes(ps[k].chunks[c])
      {
        assert Before(k, c, |ps|, 0);
      }
    }
    RewrittenAtStop(ps, qs, |ps|, 0);
  }

  lemma OneMoreChunk(ps: seq<FileDiff>, qs: seq<FileDiff>, i: nat, a: nat)
    requires i < |ps| && a < |ps[i].chunks| && RewrittenBefore(ps, qs, i, a) && Reached(ps, i, a)
    ensures a < |qs[i].chunks| && RewrittenBefore(ps, WithRewritten(qs, i, a), i, a + 1)
    ensures ChunkCompletes(qs[i].chunks[a]) ==> Reached(ps, i, a + 1)
    ensures !ChunkCompletes(qs[i].chunks[a]) ==> WithRewritten(qs, i, a) == Rewritten(ps)
  {
    RewrittenNext(ps, qs, i, a);
    ReachedNext(ps, i, a);
    if !ChunkCompletes(qs[i].chunks[a]) {
      StopsAtIncomplete(ps, WithRewritten(qs, i, a), i, a);
    }
  }

  method RewriteNext(chunk: PatchChunk, ghost lay: Layout, ghost ps: seq<FileDiff>, ghost before: seq<FileDiff>,
                     ghost i: nat, ghost a: nat)
    returns (ok: bool, ghost qs: seq<FileDiff>)
    requires Represents(lay, before) && ChunkAt(lay, i, a) && lay.chunks[i][a] == chunk
    requires RewrittenBefore(ps, before, i, a) && Reached(ps, i, a)
    modifies chunk.lines
    ensures Represents(lay, qs) && RewrittenBefore(ps, qs, i, a + 1)
    ensures if ok then Reached(ps, i, a + 1) else qs == Rewritten(ps)
  {
    OneMoreChunk(ps, before, i, a);
    ok := RewriteOne(chunk, lay, before, i, a);
    qs := WithRewritten(before, i, a);
  }

  /** The loop over the chunks of one patch. */
  method RewritePatch(patch: Patch, ghost lay: Layout, ghost ps: seq<FileDiff>, ghost i: nat,
                      ghost before: seq<FileDiff>, ghost owned: set<object>)
    returns (ok: bool, ghost qs: seq<FileDiff>)
    requires Represents(lay, before) && i < |ps| == |lay.patches| && lay.patches[i] == patch
    requires RewrittenBefore(ps, before, i, 0) && Reached(ps, i, 0)
    requires forall j, b, k :: LineAt(lay, j, b, k) ==> lay.lines[j][b][k] in owned
    modifies owned
    ensures Represents(lay, qs)
    ensures ok ==> RewrittenBefore(ps, qs, i + 1, 0) && Reached(ps, i + 1, 0)
    ensures !ok ==> qs == Rewritten(ps)
  {
    qs := before;
    for a := 0 to |patch.chunks|
      invariant Represents(lay, qs) && RewrittenBefore(ps, qs, i, a) && Reached(ps, i, a)
    {
      assert ChunkAt(lay, i, a) && lay.chunks[i][a] == patch.chunks[a];
      assert forall k :: 0 <= k < |lay.lines[i][a]| ==> LineAt(lay, i, a, k);
      ok, qs := RewriteNext(patch.chunks[a], lay, ps, qs, i, a);
      if !ok {
        return;
      }
    }
    NextPatch(ps, qs, i);
    ReachedNextPatch(ps, i);
    ok := true;
  }

  lemma LinesHeld(lay: Layout, owned: set<object>)
    requires Objects(lay) <= owned
    ensures forall j, b, k :: LineAt(lay, j, b, k) ==> lay.lines[j][b][k] in owned
  {
  }

  /** Parses the lines, with None for any exception, and rewrites the objects that the parser has made. */
  method RemoveTrailingWhitespaceChanges(lines: seq<string>) returns (patchset: Option<seq<Patch>>, ghost lay: Layout)
    ensures patchset.None? <==> Parse(lines).None?
    ensures patchset.Some? ==> lay.patches == patchset.value && Represents(lay, Rewritten(Parse(lines).value))
  {
    ghost var owned;
    patchset, lay, owned := ParsePatchset(lines);
    if patchset.None? {
      return;
    }
    var patches := patchset.value;
    ghost var ps := Parse(lines).value;
    ghost var qs := ps;
    LinesHeld(lay, owned);
    for i := 0 to |patches|
      invariant Represents(lay, qs) && RewrittenBefore(ps, qs, i, 0) && Reached(ps, i, 0)
    {
      var ok;
      ok, qs := RewritePatch(patches[i], lay, ps, i, qs, owned);
      if !ok {
        return;
      }
    }
    StopsAtEnd(ps, qs);
  }
}
