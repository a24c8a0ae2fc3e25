/**
 utils/check-style.py: what `parse_patchset` makes of the lines of a patch file, kind by kind: when it raises, which
 files it finds, and to which file and chunk each header and each line goes.
 */
module DiffReading {
  import opened Basics
  import opened UnifiedDiff

  // ---------- when it raises

  ghost predicate SomeFile(ts: seq<Parsed>) {
    exists i :: 0 <= i < |ts| && ts[i].FileFrom?
  }

  ghost predicate SomeHeader(ts: seq<Parsed>) {
    exists i :: 0 <= i < |ts| && ts[i].Header?
  }

  /** The i-th line is of no kind, or names a destination or starts a chunk before any source file has been named, or
      belongs to a chunk before any chunk has been started. */
  ghost predicate Refused(ts: seq<Parsed>, i: int) {
    && 0 <= i < |ts|
    && match ts[i]
       case FileFrom(_) => false
       case FileTo(_) => !SomeFile(ts[..i])
       case Header(_, _, _, _) => !SomeFile(ts[..i])
       case Body(_) => !SomeHeader(ts[..i])
       case Unknown => true
  }

  lemma SomeMore(ts: seq<Parsed>)
    requires ts != []
    ensures var n := |ts| - 1;
            && (SomeFile(ts) <==> SomeFile(ts[..n]) || ts[n].FileFrom?)
            && (SomeHeader(ts) <==> SomeHeader(ts[..n]) || ts[n].Header?)
  {
    var n := |ts| - 1;
    assert forall i :: 0 <= i < n ==> ts[..n][i] == ts[i];
    assert ts[n].FileFrom? ==> SomeFile(ts);
    assert ts[n].Header? ==> SomeHeader(ts);
    if SomeFile(ts[..n]) {
      var i :| 0 <= i < n && ts[..n][i].FileFrom?;
      assert ts[i].FileFrom?;
    }
    if SomeHeader(ts[..n]) {
      var i :| 0 <= i < n && ts[..n][i].Header?;
      assert ts[i].Header?;
    }
  }

  lemma RefusedBefore(ts: seq<Parsed>, i: int)
    requires ts != [] && i < |ts| - 1
    ensures Refused(ts, i) == Refused(ts[..|ts|-1], i)
  {
    if 0 <= i {
      assert ts[..|ts|-1][..i] == ts[..i];
    }
  }

  lemma {:induction false} RunFailsIff(ts: seq<Parsed>)
    ensures Run(START, ts).Failed? <==> exists i :: Refused(ts, i)
    ensures Run(START, ts).Parsing? ==>
              var st := Run(START, ts);
              (st.patches != [] <==> SomeFile(ts)) && (st.chunkOwner.Some? <==> SomeHeader(ts))
  {
    if ts != [] {
      var n := |ts| - 1;
      RunFailsIff(ts[..n]);
      SomeMore(ts);
      if i :| Refused(ts[..n], i) {
        RefusedBefore(ts, i);
      }
      if i :| Refused(ts, i) && i != n {
        RefusedBefore(ts, i);
      }
      assert Run(START, ts[..n]).Parsing? ==> (Refused(ts, n) <==> Run(START, ts).Failed?);
    }
  }

  /** parse_patchset raises exactly if some line is refused. */
  lemma ParseRaisesIff(lines: seq<string>)
    ensures Parse(lines) == None <==> exists i :: Refused(ParseLines(lines), i)
  {
    RunFailsIff(ParseLines(lines));
  }

  // ---------- what goes where

  /** The files: each one as its source name begins it, with the destination name that came last before the next. */
  ghost function FilesRead(ts: seq<Parsed>): seq<(string, string)> {
    if ts == [] then []
    else
      var fs, t := FilesRead(ts[..|ts|-1]), ts[|ts|-1];
      match t
      case FileFrom(name) => fs + [(name, "")]
      case FileTo(name) => if fs == [] then fs else fs[|fs|-1 := (fs[|fs|-1].0, name)]
      case _ => fs
  }

  /** The chunks, each with the number of its file: a header starts one in the latest file, and a line goes to the
      latest chunk, whatever files have been named since. */
  ghost function ChunksRead(ts: seq<Parsed>): seq<(int, Chunk)> {
    if ts == [] then []
    else
      var front, t := ts[..|ts|-1], ts[|ts|-1];
      var cs := ChunksRead(front);
      match t
      case Header(a, _, c, _) => cs + [(|FilesRead(front)| - 1, Chunk(a, c, []))]
      case Body(l) =>
        if cs == [] then cs
        else
          var last := cs[|cs|-1];
          cs[|cs|-1 := (last.0, Chunk(last.1.srcPos, last.1.dstPos, last.1.lines + [l]))]
      case _ => cs
  }

  ghost function Tagged(i: int, cs: seq<Chunk>): seq<(int, Chunk)> {
    seq(|cs|, k requires 0 <= k < |cs| => (i, cs[k]))
  }

  /** All chunks of a patchset, in order, with the numbers of their files. */
  ghost function AllChunks(ps: seq<FileDiff>): seq<(int, Chunk)> {
    if ps == [] then []
    else AllChunks(ps[..|ps|-1]) + Tagged(|ps| - 1, ps[|ps|-1].chunks)
  }

  ghost function AllFiles(ps: seq<FileDiff>): seq<(string, string)> {
    seq(|ps|, i requires 0 <= i < |ps| => (ps[i].src, ps[i].dst))
  }

  /** The owner is the last file that has a chunk. */
  ghost predicate LastWithChunk(ps: seq<FileDiff>, owner: Option<nat>) {
    match owner
    case None => forall i :: 0 <= i < |ps| ==> ps[i].chunks == []
    case Some(o) => o < |ps| && ps[o].chunks != [] && forall i :: o < i < |ps| ==> ps[i].chunks == []
  }

  lemma ChunksInLast(front: seq<FileDiff>, p: FileDiff)
    ensures AllChunks(front + [p]) == AllChunks(front) + Tagged(|front|, p.chunks)
  {
    assert (front + [p])[..|front|] == front;
  }

  lemma {:induction false} NoChunks(ps: seq<FileDiff>)
    requires LastWithChunk(ps, None)
    ensures AllChunks(ps) == []
  {
    if ps != [] {
      NoChunks(ps[..|ps|-1]);
    }
  }

  lemma TaggedMore(i: int, cs: seq<Chunk>, c: Chunk)
    ensures Tagged(i, cs + [c]) == Tagged(i, cs) + [(i, c)]
  {
  }

  /** A line for the owner's last chunk is one for the last of all chunks. */
  lemma {:induction false} LineInLast(ps: seq<FileDiff>, o: nat, cs: seq<Chunk>, c: Chunk, d: Chunk)
    requires LastWithChunk(ps, Some(o)) && ps[o].chunks == cs + [c]
    ensures var all := AllChunks(ps);
            && all != [] && all[|all|-1] == (o, c)
            && AllChunks(ps[o := ps[o].(chunks := cs + [d])]) == all[|all|-1 := (o, d)]
  {
    var n := |ps| - 1;
    var front := ps[..n];
    var more := ps[o := ps[o].(chunks := cs + [d])];
    assert ps == front + [ps[n]];
    ChunksInLast(front, ps[n]);
    if o == n {
      assert more == front + [ps[n].(chunks := cs + [d])];
      ChunksInLast(front, ps[n].(chunks := cs + [d]));
      TaggedMore(n, cs, c);
      TaggedMore(n, cs, d);
    } else {
      assert more == front[o := ps[o].(chunks := cs + [d])] + [ps[n]];
      LineInLast(front, o, cs, c, d);
      ChunksInLast(front[o := ps[o].(chunks := cs + [d])], ps[n]);
    }
  }

  lemma HeaderInLast(ps: seq<FileDiff>, c: Chunk)
    requires ps != []
    ensures var n := |ps| - 1;
            AllChunks(ps[n := ps[n].(chunks := ps[n].chunks + [c])]) == AllChunks(ps) + [(n, c)]
  {
    var n := |ps| - 1;
    var front, p := ps[..n], ps[n].(chunks := ps[n].chunks + [c]);
    assert ps == front + [ps[n]] && ps[n := p] == front + [p];
    ChunksInLast(front, ps[n]);
    ChunksInLast(front, p);
    TaggedMore(n, ps[n].chunks, c);
  }

  lemma NameInLast(ps: seq<FileDiff>, name: string)
    requires ps != []
    ensures var n := |ps| - 1;
            AllChunks(ps[n := ps[n].(dst := name)]) == AllChunks(ps)
  {
    var n := |ps| - 1;
    var front, p := ps[..n], ps[n].(dst := name);
    assert ps == front + [ps[n]] && ps[n := p] == front + [p];
    ChunksInLast(front, ps[n]);
    ChunksInLast(front, p);
  }

  /** What the parser has made of the lines so far. */
  ghost predicate ReadSoFar(ts: seq<Parsed>, st: State) {
    st.Parsing? ==>
      && LastWithChunk(st.patches, st.chunkOwner)
      && AllFiles(st.patches) == FilesRead(ts) && AllChunks(st.patches) == ChunksRead(ts)
  }

  lemma ReadMore(ts: seq<Parsed>, t: Parsed)
    ensures t.Body? && ChunksRead(ts) != [] ==>
              var cs := ChunksRead(ts);
              var last := cs[|cs|-1];
              ChunksRead(ts + [t]) == cs[|cs|-1 := (last.0, AddLine(last.1, t.line))]
    ensures t.Header? ==>
              ChunksRead(ts + [t]) == ChunksRead(ts) + [(|FilesRead(ts)| - 1, Chunk(t.srcPos, t.dstPos, []))]
    ensures !t.Body? && !t.Header? ==> ChunksRead(ts + [t]) == ChunksRead(ts)
  {
    assert (ts + [t])[..|ts|] == ts;
  }

  lemma FilesMore(ts: seq<Parsed>, t: Parsed)
    ensures t.FileFrom? ==> FilesRead(ts + [t]) == FilesRead(ts) + [(t.name, "")]
    ensures t.FileTo? && FilesRead(ts) != [] ==>
              var fs := FilesRead(ts);
              FilesRead(ts + [t]) == fs[|fs|-1 := (fs[|fs|-1].0, t.name)]
    ensures !t.FileFrom? && !t.FileTo? ==> FilesRead(ts + [t]) == FilesRead(ts)
  {
    assert (ts + [t])[..|ts|] == ts;
  }

  lemma FromReads(ts: seq<Parsed>, st: State, t: Parsed)
    requires StateOk(st) && ReadSoFar(ts, st) && st.Parsing? && t.FileFrom?
    ensures ReadSoFar(ts + [t], Step(st, t))
  {
    ReadMore(ts, t);
    FilesMore(ts, t);
    NewFile(st.patches, st.chunkOwner, FileDiff(t.name, "", []));
  }

  lemma NewFile(ps: seq<FileDiff>, owner: Option<nat>, p: FileDiff)
    requires LastWithChunk(ps, owner) && p.chunks == []
    ensures LastWithChunk(ps + [p], owner)
    ensures AllFiles(ps + [p]) == AllFiles(ps) + [(p.src, p.dst)] && AllChunks(ps + [p]) == AllChunks(ps)
  {
    ChunksInLast(ps, p);
  }

  lemma ToReads(ts: seq<Parsed>, st: State, t: Parsed)
    requires StateOk(st) && ReadSoFar(ts, st) && st.Parsing? && t.FileTo? && st.patches != []
    ensures ReadSoFar(ts + [t], Step(st, t))
  {
    ReadMore(ts, t);
    FilesMore(ts, t);
    NameInLast(st.patches, t.name);
  }

  lemma HeaderReads(ts: seq<Parsed>, st: State, t: Parsed)
    requires StateOk(st) && ReadSoFar(ts, st) && st.Parsing? && t.Header? && st.patches != []
    ensures ReadSoFar(ts + [t], Step(st, t))
  {
    ReadMore(ts, t);
    FilesMore(ts, t);
    HeaderInLast(st.patches, Chunk(t.srcPos, t.dstPos, []));
  }

  lemma BodyReads(ts: seq<Parsed>, st: State, t: Parsed)
    requires StateOk(st) && ReadSoFar(ts, st) && st.Parsing? && t.Body? && st.chunkOwner.Some?
    ensures ReadSoFar(ts + [t], Step(st, t))
  {
    ReadMore(ts, t);
    FilesMore(ts, t);
    var o := st.chunkOwner.value;
    var cs := st.patches[o].chunks;
    var c := cs[|cs|-1];
    LineInLast(st.patches, o, cs[..|cs|-1], c, AddLine(c, t.line));
    assert cs[|cs|-1 := AddLine(c, t.line)] == cs[..|cs|-1] + [AddLine(c, t.line)];
  }

  lemma StepReads(ts: seq<Parsed>, st: State, t: Parsed)
    requires StateOk(st) && ReadSoFar(ts, st)
    ensures ReadSoFar(ts + [t], Step(st, t))
  {
    if Step(st, t).Parsing? {
      match t
      case FileFrom(_) => FromReads(ts, st, t);
      case FileTo(_) => ToReads(ts, st, t);
      case Header(_, _, _, _) => HeaderReads(ts, st, t);
      case Body(_) => BodyReads(ts, st, t);
    }
  }

  lemma {:induction false} RunReads(ts: seq<Parsed>)
    ensures ReadSoFar(ts, Run(START, ts))
  {
    if ts != [] {
      var n := |ts| - 1;
      RunReads(ts[..n]);
      StepReads(ts[..n], Run(START, ts[..n]), ts[n]);
      assert ts[..n] + [ts[n]] == ts;
    }
  }

  /** A patchset that has been parsed has the files and the chunks, with the lines in them, that the lines of the
      patch file say. */
  lemma ParsedIsRead(lines: seq<string>, ps: seq<FileDiff>)
    requires Parse(lines) == Some(ps)
    ensures AllFiles(ps) == FilesRead(ParseLines(lines)) && AllChunks(ps) == ChunksRead(ParseLines(lines))
  {
    RunReads(ParseLines(lines));
  }
}
