/**
 utils/check-style.py: the classes PatchChunkLine, PatchChunk and Patch, and `parse_patchset`, which builds
 and links their objects.
 */
module PatchObjects {
  import opened Basics
  import opened Sequences
  import opened UnifiedDiff

  class PatchChunkLine {
    var kind: LineType
    var line: string

    constructor ()
      ensures kind == Unset && line == ""
    {
      kind, line := Unset, "";
    }

    method SetSrc(text: string)
      modifies this
      ensures kind == Src && line == text
    {
      kind, line := Src, text;
    }

    method SetDst(text: string)
      modifies this
      ensures kind == Dst && line == text
    {
      kind, line := Dst, text;
    }

    method SetBoth(text: string)
      modifies this
      ensures kind == Both && line == text
    {
      kind, line := Both, text;
    }

    method AppendToLine(s: string)
      modifies this`line
      ensures line == old(line) + s
    {
      line := line + s;
    }
  }

  class PatchChunk {
    const srcPos: int
    const dstPos: int
    var lines: seq<PatchChunkLine>

    constructor (srcPos: int, dstPos: int)
      ensures this.srcPos == srcPos && this.dstPos == dstPos && lines == []
    {
      this.srcPos, this.dstPos, lines := srcPos, dstPos, [];
    }

    method AddLine(l: PatchChunkLine)
      modifies this
      ensures lines == old(lines) + [l]
    {
      lines := lines + [l];
    }

    /** The line objects of the source side, in order. */
    method Src() returns (src: seq<PatchChunkLine>)
      ensures Within(SrcAt(Kinds(lines)), |lines|) && src == At(lines, SrcAt(Kinds(lines)))
    {
      src := [];
      ghost var kinds, ks := Kinds(lines), [];
      for i := 0 to |lines|
        invariant ks == SrcAt(kinds[..i]) && Within(ks, |lines|) && src == At(lines, ks)
      {
        assert kinds[..i+1][..i] == kinds[..i];
        if IsSrc(lines[i].kind) {
          src := src + [lines[i]];
          ks := ks + [i];
        }
      }
      assert kinds[..|lines|] == kinds;
    }

    /** The line objects of the destination side, in order. */
    method Dst() returns (dst: seq<PatchChunkLine>)
      ensures Within(DstAt(Kinds(lines)), |lines|) && dst == At(lines, DstAt(Kinds(lines)))
    {
      dst := [];
      ghost var kinds, ks := Kinds(lines), [];
      for i := 0 to |lines|
        invariant ks == DstAt(kinds[..i]) && Within(ks, |lines|) && dst == At(lines, ks)
      {
        assert kinds[..i+1][..i] == kinds[..i];
        if IsDst(lines[i].kind) {
          dst := dst + [lines[i]];
          ks := ks + [i];
        }
      }
      assert kinds[..|lines|] == kinds;
    }
  }

  class Patch {
    var src: string
    var dst: string
    var chunks: seq<PatchChunk>

    constructor ()
      ensures src == "" && dst == "" && chunks == []
    {
      src, dst, chunks := "", "", [];
    }

    method SetSrc(name: string)
      modifies this`src
      ensures src == name
    {
      src := name;
    }

    method SetDst(name: string)
      modifies this`dst
      ensures dst == name
    {
      dst := name;
    }

    method AddChunk(c: PatchChunk)
      modifies this`chunks
      ensures chunks == old(chunks) + [c]
    {
      chunks := chunks + [c];
    }
  }

  // ---------- the two sides of a chunk

  ghost function Kinds(lines: seq<PatchChunkLine>): seq<LineType>
    reads lines
  {
    seq(|lines|, i requires 0 <= i < |lines| reads lines => lines[i].kind)
  }

  ghost function Texts(lines: seq<PatchChunkLine>): seq<string>
    reads lines
  {
    seq(|lines|, i requires 0 <= i < |lines| reads lines => lines[i].line)
  }

  /** The positions of the source lines of a chunk, in order. */
  ghost function SrcAt(kinds: seq<LineType>): seq<nat> {
    if kinds == [] then []
    else SrcAt(kinds[..|kinds|-1]) + if IsSrc(kinds[|kinds|-1]) then [|kinds| - 1] else []
  }

  /** The positions of the destination lines of a chunk, in order. */
  ghost function DstAt(kinds: seq<LineType>): seq<nat> {
    if kinds == [] then []
    else DstAt(kinds[..|kinds|-1]) + if IsDst(kinds[|kinds|-1]) then [|kinds| - 1] else []
  }

  ghost function At(lines: seq<PatchChunkLine>, ks: seq<nat>): seq<PatchChunkLine>
    requires Within(ks, |lines|)
  {
    seq(|ks|, i requires 0 <= i < |ks| => lines[ks[i]])
  }

  // ---------- what a patchset of objects stands for

  /** The objects of a patchset: its patches, the chunks of each, and the lines of each chunk. */
  datatype Layout = Layout(patches: seq<Patch>, chunks: seq<seq<PatchChunk>>, lines: seq<seq<seq<PatchChunkLine>>>)

  ghost predicate Shaped(lay: Layout) {
    && |lay.patches| == |lay.chunks| == |lay.lines|
    && forall i :: 0 <= i < |lay.chunks| ==> |lay.chunks[i]| == |lay.lines[i]|
  }

  ghost predicate ChunkAt(lay: Layout, i: int, a: int) {
    0 <= i < |lay.chunks| && 0 <= a < |lay.chunks[i]|
  }

  ghost predicate LineAt(lay: Layout, i: int, a: int, k: int) {
    0 <= i < |lay.lines| && 0 <= a < |lay.lines[i]| && 0 <= k < |lay.lines[i][a]|
  }

  /** No object is in two places. */
  ghost predicate Apart(lay: Layout) {
    && NoDup(lay.patches)
    && (forall i, a, j, b ::
          ChunkAt(lay, i, a) && ChunkAt(lay, j, b) && lay.chunks[i][a] == lay.chunks[j][b] ==> i == j && a == b)
    && (forall i, a, k, j, b, m ::
          LineAt(lay, i, a, k) && LineAt(lay, j, b, m) && lay.lines[i][a][k] == lay.lines[j][b][m]
          ==> i == j && a == b && k == m)
  }

  ghost function Objects(lay: Layout): set<object> {
    (set p | p in lay.patches :: p as object)
    + (set i, a | ChunkAt(lay, i, a) :: lay.chunks[i][a] as object)
    + (set i, a, k | LineAt(lay, i, a, k) :: lay.lines[i][a][k] as object)
  }

  ghost predicate PatchesLinked(lay: Layout)
    requires Shaped(lay)
    reads *
  {
    forall i :: 0 <= i < |lay.patches| ==> lay.patches[i].chunks == lay.chunks[i]
  }

  /** The fields of the objects refer to each other accordingly. */
  ghost predicate Linked(lay: Layout)
    requires Shaped(lay)
    reads *
  {
    && PatchesLinked(lay)
    && (forall i, a :: ChunkAt(lay, i, a) ==> lay.chunks[i][a].lines == lay.lines[i][a])
  }

  ghost predicate LineIs(l: PatchChunkLine, v: Line)
    reads l
  {
    l.kind == v.kind && l.line == v.text
  }

  ghost predicate LinesAre(ls: seq<PatchChunkLine>, vs: seq<Line>)
    reads ls
  {
    |ls| == |vs| && forall k :: 0 <= k < |ls| ==> LineIs(ls[k], vs[k])
  }

  ghost predicate ChunkIs(c: PatchChunk, ls: seq<PatchChunkLine>, v: Chunk)
    reads ls
  {
    c.srcPos == v.srcPos && c.dstPos == v.dstPos && LinesAre(ls, v.lines)
  }

  ghost predicate PatchIs(p: Patch, v: FileDiff)
    reads p
  {
    p.src == v.src && p.dst == v.dst
  }

  /** The objects say what the given patchset says. */
  ghost predicate Means(lay: Layout, vs: seq<FileDiff>)
    requires Shaped(lay)
    reads lay.patches, set i, a, k | LineAt(lay, i, a, k) :: lay.lines[i][a][k]
  {
    && |vs| == |lay.patches|
    && (forall i :: 0 <= i < |vs| ==> PatchIs(lay.patches[i], vs[i]) && |vs[i].chunks| == |lay.chunks[i]|)
    && (forall i, a :: ChunkAt(lay, i, a) ==> ChunkIs(lay.chunks[i][a], lay.lines[i][a], vs[i].chunks[a]))
  }

  /** A patchset of objects, each in one place, that stands for the given one. */
  ghost predicate Represents(lay: Layout, vs: seq<FileDiff>)
    reads *
  {
    Shaped(lay) && Apart(lay) && Linked(lay) && Means(lay, vs)
  }

  // ---------- adding an object

  ghost function WithPatch(lay: Layout, p: Patch): Layout {
    Layout(lay.patches + [p], lay.chunks + [[]], lay.lines + [[]])
  }

  ghost function WithChunk(lay: Layout, o: nat, c: PatchChunk): Layout
    requires Shaped(lay) && o < |lay.patches|
  {
    lay.(chunks := lay.chunks[o := lay.chunks[o] + [c]], lines := lay.lines[o := lay.lines[o] + [[]]])
  }

  ghost function WithLine(lay: Layout, o: nat, l: PatchChunkLine): Layout
    requires Shaped(lay) && o < |lay.patches| && lay.chunks[o] != []
  {
    var a := |lay.lines[o]| - 1;
    lay.(lines := lay.lines[o := lay.lines[o][a := lay.lines[o][a] + [l]]])
  }

  lemma ApartWithPatch(lay: Layout, p: Patch)
    requires Shaped(lay) && Apart(lay) && p !in lay.patches
    ensures Shaped(WithPatch(lay, p)) && Apart(WithPatch(lay, p))
  {
  }

  lemma ApartWithChunk(lay: Layout, o: nat, c: PatchChunk)
    requires Shaped(lay) && Apart(lay) && o < |lay.patches|
    requires forall i, a :: ChunkAt(lay, i, a) ==> lay.chunks[i][a] != c
    ensures Shaped(WithChunk(lay, o, c)) && Apart(WithChunk(lay, o, c))
  {
  }

  lemma ApartWithLine(lay: Layout, o: nat, l: PatchChunkLine)
    requires Shaped(lay) && Apart(lay) && o < |lay.patches| && lay.chunks[o] != []
    requires forall i, a, k :: LineAt(lay, i, a, k) ==> lay.lines[i][a][k] != l
    ensures Shaped(WithLine(lay, o, l)) && Apart(WithLine(lay, o, l))
  {
  }

  lemma ObjectsWithPatch(lay: Layout, p: Patch)
    requires Shaped(lay)
    ensures Objects(WithPatch(lay, p)) <= Objects(lay) + {p}
  {
  }

  lemma ObjectsWithChunk(lay: Layout, o: nat, c: PatchChunk)
    requires Shaped(lay) && o < |lay.patches|
    ensures Objects(WithChunk(lay, o, c)) <= Objects(lay) + {c}
  {
  }

  lemma ObjectsWithLine(lay: Layout, o: nat, l: PatchChunkLine)
    requires Shaped(lay) && o < |lay.patches| && lay.chunks[o] != []
    ensures Objects(WithLine(lay, o, l)) <= Objects(lay) + {l}
  {
  }

  lemma LinkedWithChunk(lay: Layout, o: nat, c: PatchChunk)
    requires Shaped(lay) && o < |lay.patches| && c.lines == []
    requires forall i :: 0 <= i < |lay.patches| && i != o ==> lay.patches[i].chunks == lay.chunks[i]
    requires lay.patches[o].chunks == lay.chunks[o] + [c]
    requires forall i, a :: ChunkAt(lay, i, a) ==> lay.chunks[i][a].lines == lay.lines[i][a]
    ensures Shaped(WithChunk(lay, o, c)) && Linked(WithChunk(lay, o, c))
  {
  }

  lemma LinkedWithLine(lay: Layout, o: nat, l: PatchChunkLine)
    requires Shaped(lay) && o < |lay.patches| && lay.chunks[o] != [] && PatchesLinked(lay)
    requires forall i, a :: ChunkAt(lay, i, a) && !(i == o && a == |lay.chunks[o]| - 1)
               ==> lay.chunks[i][a].lines == lay.lines[i][a]
    requires var a := |lay.chunks[o]| - 1;
             lay.chunks[o][a].lines == lay.lines[o][a] + [l]
    ensures Shaped(WithLine(lay, o, l)) && Linked(WithLine(lay, o, l))
  {
  }

  lemma MeansWithPatch(lay: Layout, vs: seq<FileDiff>, p: Patch, name: string)
    requires Shaped(lay) && Linked(lay) && Means(lay, vs)
    requires p.src == name && p.dst == "" && p.chunks == []
    ensures Shaped(WithPatch(lay, p)) && Linked(WithPatch(lay, p))
    ensures Means(WithPatch(lay, p), vs + [FileDiff(name, "", [])])
  {
  }

  lemma MeansWithChunk(lay: Layout, vs: seq<FileDiff>, o: nat, c: PatchChunk)
    requires Shaped(lay) && Means(lay, vs) && o < |lay.patches|
    ensures Means(WithChunk(lay, o, c), vs[o := vs[o].(chunks := vs[o].chunks + [Chunk(c.srcPos, c.dstPos, [])])])
  {
  }

  lemma MeansWithLine(lay: Layout, vs: seq<FileDiff>, o: nat, l: PatchChunkLine, v: Line)
    requires Shaped(lay) && Means(lay, vs) && o < |lay.patches| && lay.chunks[o] != [] && LineIs(l, v)
    ensures var cs := vs[o].chunks;
            Means(WithLine(lay, o, l), vs[o := vs[o].(chunks := cs[|cs|-1 := AddLine(cs[|cs|-1], v)])])
  {
  }

  // ---------- the parser

  /** The parser's variables: the patches so far, and the current chunk, which is the last one of its owner. */
  ghost predicate Tracks(lay: Layout, chunk: PatchChunk?, st: State)
    reads *
  {
    && st.Parsing? && Represents(lay, st.patches)
    && (chunk == null <==> st.chunkOwner.None?)
    && (chunk != null ==>
          var o := st.chunkOwner.value;
          o < |lay.chunks| && lay.chunks[o] != [] && lay.chunks[o][|lay.chunks[o]|-1] == chunk)
  }

  method StartPatch(ghost lay: Layout, chunk: PatchChunk?, name: string, ghost st: State)
    returns (p: Patch, ghost more: Layout)
    requires StateOk(st) && Tracks(lay, chunk, st)
    ensures Tracks(more, chunk, Step(st, FileFrom(name))) && more.patches == lay.patches + [p]
    ensures fresh(Objects(more) - Objects(lay))
  {
    p := new Patch();
    p.SetSrc(name);
    more := WithPatch(lay, p);
    assert Shaped(more) && Apart(more) by {
      ApartWithPatch(lay, p);
    }
    assert Linked(more) && Means(more, Step(st, FileFrom(name)).patches) by {
      MeansWithPatch(lay, st.patches, p, name);
    }
    assert Objects(more) <= Objects(lay) + {p} by {
      ObjectsWithPatch(lay, p);
    }
  }

  method NamePatch(ghost lay: Layout, chunk: PatchChunk?, p: Patch, name: string, ghost st: State)
    requires StateOk(st) && Tracks(lay, chunk, st) && lay.patches != [] && p == lay.patches[|lay.patches|-1]
    modifies p`dst
    ensures Tracks(lay, chunk, Step(st, FileTo(name)))
  {
    p.SetDst(name);
  }

  lemma ChunkAdded(lay: Layout, c: PatchChunk, header: Parsed, st: State) returns (more: Layout)
    requires StateOk(st) && st.Parsing? && Shaped(lay) && Apart(lay) && Means(lay, st.patches) && lay.patches != []
    requires header.Header? && c.srcPos == header.srcPos && c.dstPos == header.dstPos && c.lines == []
    requires forall i, a :: ChunkAt(lay, i, a) ==> lay.chunks[i][a] != c
    requires forall i :: 0 <= i < |lay.patches| - 1 ==> lay.patches[i].chunks == lay.chunks[i]
    requires var o := |lay.patches| - 1;
             lay.patches[o].chunks == lay.chunks[o] + [c]
    requires forall i, a :: ChunkAt(lay, i, a) ==> lay.chunks[i][a].lines == lay.lines[i][a]
    ensures Tracks(more, c, Step(st, header)) && more.patches == lay.patches
    ensures Objects(more) <= Objects(lay) + {c}
  {
    var o := |lay.patches| - 1;
    more := WithChunk(lay, o, c);
    ApartWithChunk(lay, o, c);
    LinkedWithChunk(lay, o, c);
    MeansWithChunk(lay, st.patches, o, c);
    ObjectsWithChunk(lay, o, c);
  }

  method StartChunk(ghost lay: Layout, chunk: PatchChunk?, p: Patch, a: nat, m: nat, b: nat, n: nat, ghost st: State)
    returns (c: PatchChunk, ghost more: Layout)
    requires StateOk(st) && Tracks(lay, chunk, st) && lay.patches != [] && p == lay.patches[|lay.patches|-1]
    modifies p`chunks
    ensures Tracks(more, c, Step(st, Header(a, m, b, n))) && more.patches == lay.patches
    ensures fresh(Objects(more) - Objects(lay))
  {
    c := new PatchChunk(a, b);
    p.AddChunk(c);
    assert Means(lay, st.patches);
    more := ChunkAdded(lay, c, Header(a, m, b, n), st);
  }

  method NewLine(l: Line) returns (line: PatchChunkLine)
    ensures fresh(line) && LineIs(line, l)
  {
    line := new PatchChunkLine();
    if l.kind == Src {
      line.SetSrc(l.text);
    } else if l.kind == Dst {
      line.SetDst(l.text);
    } else {
      line.SetBoth(l.text);
    }
  }

  lemma LineAttached(lay: Layout, chunk: PatchChunk, l: PatchChunkLine, v: Line, st: State) returns (more: Layout)
    requires StateOk(st) && st.Parsing? && st.chunkOwner.Some? && Shaped(lay) && Apart(lay) && PatchesLinked(lay)
    requires Means(lay, st.patches) && LineIs(l, v)
    requires var o := st.chunkOwner.value;
             o < |lay.chunks| && lay.chunks[o] != [] && lay.chunks[o][|lay.chunks[o]|-1] == chunk
             && chunk.lines == lay.lines[o][|lay.chunks[o]|-1] + [l]
    requires forall i, a :: ChunkAt(lay, i, a) && lay.chunks[i][a] != chunk
               ==> lay.chunks[i][a].lines == lay.lines[i][a]
    requires forall i, a, k :: LineAt(lay, i, a, k) ==> lay.lines[i][a][k] != l
    ensures Tracks(more, chunk, Step(st, Body(v))) && more.patches == lay.patches
    ensures Objects(more) <= Objects(lay) + {l}
  {
    var o := st.chunkOwner.value;
    more := WithLine(lay, o, l);
    ApartWithLine(lay, o, l);
    LinkedWithLine(lay, o, l);
    MeansWithLine(lay, st.patches, o, l, v);
    ObjectsWithLine(lay, o, l);
  }

  method AttachLine(ghost lay: Layout, chunk: PatchChunk, l: PatchChunkLine, ghost v: Line, ghost st: State)
    returns (ghost more: Layout)
    requires StateOk(st) && Tracks(lay, chunk, st) && LineIs(l, v)
    requires forall i, a, k :: LineAt(lay, i, a, k) ==> lay.lines[i][a][k] != l
    modifies chunk
    ensures Tracks(more, chunk, Step(st, Body(v))) && more.patches == lay.patches
    ensures Objects(more) <= Objects(lay) + {l}
  {
    chunk.AddLine(l);
    assert Means(lay, st.patches);
    more := LineAttached(lay, chunk, l, v, st);
  }

  method AddBody(ghost lay: Layout, chunk: PatchChunk, v: Line, ghost st: State) returns (ghost more: Layout)
    requires StateOk(st) && Tracks(lay, chunk, st)
    modifies chunk
    ensures Tracks(more, chunk, Step(st, Body(v))) && more.patches == lay.patches
    ensures fresh(Objects(more) - Objects(lay))
  {
    var l := NewLine(v);
    more := AttachLine(lay, chunk, l, v, st);
  }

  function Last<T>(s: seq<T>): Option<T> {
    if s == [] then None else Some(s[|s|-1])
  }

  /** The objects that the parser may still change: its current patch and its current chunk. */
  ghost function Current(patches: seq<Patch>, chunk: PatchChunk?): set<object> {
    (if patches == [] then {} else {patches[|patches|-1] as object}) + (if chunk == null then {} else {chunk as object})
  }

  lemma CurrentIsHeld(lay: Layout, chunk: PatchChunk?, st: State)
    requires Tracks(lay, chunk, st)
    ensures Current(lay.patches, chunk) <= Objects(lay)
  {
    if lay.patches != [] {
      assert lay.patches[|lay.patches|-1] in lay.patches;
    }
    if chunk != null {
      var o := st.chunkOwner.value;
      var a := |lay.chunks[o]| - 1;
      assert ChunkAt(lay, o, a) && lay.chunks[o][a] == chunk;
    }
  }

  /** What the parser's loop does with one line; not ok stands for the exception it raises. */
  method TakeLine(patches: seq<Patch>, chunk: PatchChunk?, parsed: Parsed, ghost lay: Layout, ghost st: State,
                  ghost owned: set<object>)
    returns (ok: bool, patches': seq<Patch>, chunk': PatchChunk?, ghost lay': Layout, ghost owned': set<object>)
    requires StateOk(st) && Tracks(lay, chunk, st) && patches == lay.patches && Objects(lay) <= owned
    modifies owned
    ensures ok <==> Step(st, parsed).Parsing?
    ensures ok ==> Tracks(lay', chunk', Step(st, parsed)) && patches' == lay'.patches
    ensures Objects(lay') <= owned' && fresh(owned' - owned)
  {
    ok, patches', chunk', lay' := true, patches, chunk, lay;
    CurrentIsHeld(lay, chunk, st);
    var current := Last(patches);
    if parsed.FileFrom? {
      var p;
      p, lay' := StartPatch(lay, chunk, parsed.name, st);
      patches' := patches + [p];
    } else if parsed.FileTo? && current.Some? {
      NamePatch(lay, chunk, current.value, parsed.name, st);
    } else if parsed.Header? && current.Some? {
      chunk', lay' := StartChunk(lay, chunk, current.value, parsed.srcPos, parsed.srcLen, parsed.dstPos, parsed.dstLen,
                                 st);
    } else if parsed.Body? && chunk != null {
      lay' := AddBody(lay, chunk, parsed.line, st);
    } else {
      ok := false;
    }
    owned' := owned + Objects(lay');
  }

  /** None stands for any exception. Otherwise the objects, all of them new, say what the lines say. */
  method ParsePatchset(lines: seq<string>) 
    returns (patchset: Option<seq<Patch>>, ghost lay: Layout, ghost owned: set<object>)
    ensures patchset.None? <==> Parse(lines).None?
    ensures patchset.Some? ==> lay.patches == patchset.value && Represents(lay, Parse(lines).value)
    ensures fresh(owned) && Objects(lay) <= owned
  {
    var patches: seq<Patch>, chunk: PatchChunk? := [], null;
    lay, owned := Layout([], [], []), {};
    ghost var ts, st := ParseLines(lines), START;
    for j := 0 to |lines|
      invariant st == Run(START, ts[..j]) && Tracks(lay, chunk, st) && patches == lay.patches
      invariant fresh(owned) && Objects(lay) <= owned
    {
      RunOneLine(ts, j);
      var parsed := ParseLine(lines[j]);
      var ok;
      ok, patches, chunk, lay, owned := TakeLine(patches, chunk, parsed, lay, st, owned);
      if !ok {
        StaysFailed(ts, j + 1);
        return None, lay, owned;
      }
      st := Step(st, parsed);
    }
    assert ts[..|lines|] == ts;
    patchset := Some(patches);
  }
}
