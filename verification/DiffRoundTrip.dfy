/** Which patchsets survive being printed and parsed again: exactly those that are `Clean`. */
module DiffRoundTrip {
  import opened Basics
  import opened UnifiedDiff

  predicate CleanLine(l: Line) {
    && '\n' !in l.text
    && (l.kind == Src ==> !("-- " <= l.text))
    && (l.kind == Dst ==> !("++ " <= l.text))
  }

  predicate CleanChunk(c: Chunk) {
    c.srcPos >= 0 && c.dstPos >= 0 && forall i :: 0 <= i < |c.lines| ==> CleanLine(c.lines[i])
  }

  predicate CleanChunks(cs: seq<Chunk>) {
    forall i :: 0 <= i < |cs| ==> CleanChunk(cs[i])
  }

  predicate CleanPatch(p: FileDiff) {
    '\n' !in p.src && '\n' !in p.dst && CleanChunks(p.chunks)
  }

  /** No newlines, no negative positions, no removed line starting with "-- ", no added line with "++ ". */
  predicate Clean(ps: seq<FileDiff>) {
    forall i :: 0 <= i < |ps| ==> CleanPatch(ps[i])
  }

  // ---------- single lines

  lemma FirstChar(prefix: string, s: string)
    requires prefix != "" && prefix <= s
    ensures s != "" && s[0] == prefix[0] && prefix[1..] <= s[1..]
  {
    assert s[..|prefix|] == prefix;
    assert s[1..][..|prefix|-1] == prefix[1..];
  }

  lemma NotPrefix(prefix: string, s: string)
    requires prefix != "" && s != "" && (s[0] != prefix[0] || !(prefix[1..] <= s[1..]))
    ensures !(prefix <= s)
  {
    if prefix <= s {
      FirstChar(prefix, s);
    }
  }

  lemma OneLinerChomped(s: string)
    requires '\n' !in s
    ensures Chomp(s) == s
  {
  }

  lemma BodyBack(l: Line)
    requires CleanLine(l)
    ensures ParseLine(PrintLine(l)) == Body(l)
  {
    var s := PrintLine(l);
    assert s[1..] == l.text;
    assert "--- "[1..] == "-- " && "+++ "[1..] == "++ ";
    NotPrefix("--- ", s);
    NotPrefix("+++ ", s);
    NotPrefix("@@ -", s);
    OneLinerChomped(s);
    if l.kind != Src { NotPrefix("-", s); }
    if l.kind == Both { NotPrefix("+", s); }
  }

  lemma NamesBack(name: string)
    requires '\n' !in name
    ensures ParseLine("--- " + name) == FileFrom(name)
    ensures ParseLine("+++ " + name) == FileTo(name)
  {
    assert ("--- " + name)[4..] == name && ("+++ " + name)[4..] == name;
    OneLinerChomped("--- " + name);
    OneLinerChomped("+++ " + name);
    assert ("+++ " + name)[0] == '+';
  }

  lemma {:induction false} DigitCountOf(d: string, rest: string)
    requires AllDigits(d) && (rest == "" || !IsDigit(rest[0]))
    ensures DigitCount(d + rest) == |d|
  {
    if d == "" {
      assert d + rest == rest;
    } else {
      assert (d + rest)[1..] == d[1..] + rest;
      DigitCountOf(d[1..], rest);
    }
  }

  lemma NumberThenBack(n: nat, text: string, rest: string)
    requires text != "" && !IsDigit(text[0])
    ensures NumberThen(text, Decimal(n) + (text + rest)) == Some((n, rest))
  {
    var d := Decimal(n);
    DecimalRoundTrip(n);
    DigitCountOf(d, text + rest);
    assert (d + (text + rest))[..|d|] == d && (d + (text + rest))[|d|..] == text + rest;
    assert (text + rest)[|text|..] == rest;
  }

  lemma RangeThenBack(pos: nat, len: nat, text: string, rest: string)
    requires text != "" && !IsDigit(text[0])
    ensures RangeThen(text, Decimal(pos) + ("," + (Decimal(len) + (text + rest)))) == Some(((pos, len), rest))
  {
    NumberThenBack(pos, ",", Decimal(len) + (text + rest));
    NumberThenBack(len, text, rest);
  }

  lemma HeaderParts(s1: string, a: nat, b: nat, s3: string, c: nat, d: nat, rest: string)
    requires RangeThen(" +", s1) == Some(((a, b), s3)) && RangeThen(" @@", s3) == Some(((c, d), rest))
    ensures ParseHeader("@@ -" + s1) == Some(Header(a, b, c, d))
  {
    assert ("@@ -" + s1)[4..] == s1;
  }

  /** A line that begins like a header is one or nothing. */
  lemma HeaderOrNothing(s: string)
    requires "@@ -" <= s
    ensures ParseText(s) == if ParseHeader(s).Some? then ParseHeader(s).value else Unknown
  {
    NotPrefix("--- ", s);
    NotPrefix("+++ ", s);
    NotPrefix("-", s);
    NotPrefix("+", s);
    NotPrefix(" ", s);
  }

  /** A printed header is read back, its counts being those of the source and destination lines. */
  lemma HeaderBack(c: Chunk)
    requires c.srcPos >= 0 && c.dstPos >= 0
    ensures ParseLine(PrintHeader(c)) == Header(c.srcPos, |SrcLines(c.lines)|, c.dstPos, |DstLines(c.lines)|)
  {
    var m, n := |SrcLines(c.lines)|, |DstLines(c.lines)|;
    var s3 := Decimal(c.dstPos) + ("," + (Decimal(n) + " @@"));
    assert " @@" + "" == " @@";
    RangeThenBack(c.srcPos, m, " +", s3);
    RangeThenBack(c.dstPos, n, " @@", "");
    HeaderParts(Decimal(c.srcPos) + ("," + (Decimal(m) + (" +" + s3))), c.srcPos, m, s3, c.dstPos, n, "");
    HeaderOrNothing(PrintHeader(c));
    PrintedHeaderIsOneLiner(c);
    OneLinerChomped(PrintHeader(c));
  }

  // ---------- the counts in a printed header

  /** Which of the lines begin with one of two marks. */
  ghost function Marked(lines: seq<string>, mark: char): set<int> {
    set k | 0 <= k < |lines| && lines[k] != "" && (lines[k][0] == mark || lines[k][0] == ' ')
  }

  ghost function OfKind(ls: seq<Line>, kind: LineType): set<int> {
    set k | 0 <= k < |ls| && (ls[k].kind == kind || ls[k].kind == Both)
  }

  lemma OfKindMore(front: seq<Line>, l: Line, kind: LineType)
    ensures |OfKind(front + [l], kind)| == |OfKind(front, kind)| + One(l.kind == kind || l.kind == Both)
  {
    var n := |front|;
    if l.kind == kind || l.kind == Both {
      assert OfKind(front + [l], kind) == OfKind(front, kind) + {n};
    } else {
      assert OfKind(front + [l], kind) == OfKind(front, kind);
    }
  }

  /** A chunk's source lines are the removed and the context lines, its destination lines the added and the context
      lines. */
  lemma {:induction false} SideCounts(ls: seq<Line>)
    ensures |SrcLines(ls)| == |OfKind(ls, Src)| && |DstLines(ls)| == |OfKind(ls, Dst)|
  {
    if ls != [] {
      var front, l := ls[..|ls|-1], ls[|ls|-1];
      assert ls == front + [l];
      SideCounts(front);
      OfKindMore(front, l, Src);
      OfKindMore(front, l, Dst);
    }
  }

  lemma {:induction false} PrintLinesAre(ls: seq<Line>)
    ensures |PrintLines(ls)| == |ls|
    ensures forall k :: 0 <= k < |ls| ==> PrintLines(ls)[k] == PrintLine(ls[k])
  {
    if ls != [] {
      PrintLinesAre(ls[..|ls|-1]);
    }
  }

  lemma MarkedAreOfKind(ls: seq<Line>, kind: LineType, mark: char)
    requires (kind == Src && mark == '-') || (kind == Dst && mark == '+')
    ensures Marked(PrintLines(ls), mark) == OfKind(ls, kind)
  {
    PrintLinesAre(ls);
    forall k | 0 <= k < |ls| ensures k in Marked(PrintLines(ls), mark) <==> k in OfKind(ls, kind) {
      assert PrintLines(ls)[k] == PrintLine(ls[k]);
    }
  }

  /** In a printed chunk the header's counts are the numbers of lines behind it that begin with '-' or ' ', and with
      '+' or ' '. */
  lemma PrintedCounts(c: Chunk)
    requires c.srcPos >= 0 && c.dstPos >= 0
    ensures var header, lines := PrintChunk(c)[0], PrintChunk(c)[1..];
            ParseLine(header) == Header(c.srcPos, |Marked(lines, '-')|, c.dstPos, |Marked(lines, '+')|)
  {
    HeaderBack(c);
    SideCounts(c.lines);
    MarkedAreOfKind(c.lines, Src, '-');
    MarkedAreOfKind(c.lines, Dst, '+');
    assert PrintChunk(c)[1..] == PrintLines(c.lines);
  }

  // ---------- a printed patchset, line by line

  function LineTokens(ls: seq<Line>): seq<Parsed> {
    seq(|ls|, i requires 0 <= i < |ls| => Body(ls[i]))
  }

  function ChunkTokens(c: Chunk): seq<Parsed>
    requires CleanChunk(c)
  {
    [Header(c.srcPos, |SrcLines(c.lines)|, c.dstPos, |DstLines(c.lines)|)] + LineTokens(c.lines)
  }

  function ChunksTokens(cs: seq<Chunk>): seq<Parsed>
    requires CleanChunks(cs)
  {
    if cs == [] then [] else ChunksTokens(cs[..|cs|-1]) + ChunkTokens(cs[|cs|-1])
  }

  function PatchTokens(p: FileDiff): seq<Parsed>
    requires CleanPatch(p)
  {
    [FileFrom(p.src), FileTo(p.dst)] + ChunksTokens(p.chunks)
  }

  function Tokens(ps: seq<FileDiff>): seq<Parsed>
    requires Clean(ps)
  {
    if ps == [] then [] else Tokens(ps[..|ps|-1]) + PatchTokens(ps[|ps|-1])
  }

  lemma ParseLinesConcat(a: seq<string>, b: seq<string>)
    ensures ParseLines(a + b) == ParseLines(a) + ParseLines(b)
  {
  }

  lemma ParseOneMore(lines: seq<string>, s: string)
    ensures ParseLines(lines + [s]) == ParseLines(lines) + [ParseLine(s)]
  {
  }

  lemma {:induction false} LinesBack(ls: seq<Line>)
    requires forall i :: 0 <= i < |ls| ==> CleanLine(ls[i])
    ensures ParseLines(PrintLines(ls)) == LineTokens(ls)
  {
    if ls != [] {
      var front, l := ls[..|ls|-1], ls[|ls|-1];
      LinesBack(front);
      BodyBack(l);
      ParseOneMore(PrintLines(front), PrintLine(l));
      LineTokensMore(front, l);
      assert ls == front + [l];
    }
  }

  lemma LineTokensMore(front: seq<Line>, l: Line)
    ensures LineTokens(front + [l]) == LineTokens(front) + [Body(l)]
  {
  }

  lemma {:induction false} ChunksBack(cs: seq<Chunk>)
    requires CleanChunks(cs)
    ensures ParseLines(PrintChunks(cs)) == ChunksTokens(cs)
  {
    if cs != [] {
      var front, c := cs[..|cs|-1], cs[|cs|-1];
      ChunksBack(front);
      HeaderBack(c);
      LinesBack(c.lines);
      ParseLinesConcat([PrintHeader(c)], PrintLines(c.lines));
      ParseLinesConcat(PrintChunks(front), PrintChunk(c));
      assert ParseLines([PrintHeader(c)]) == [ParseLine(PrintHeader(c))];
    }
  }

  lemma ParseTwo(s: string, t: string)
    ensures ParseLines([s, t]) == [ParseLine(s), ParseLine(t)]
  {
  }

  lemma PatchBack(p: FileDiff)
    requires CleanPatch(p)
    ensures ParseLines(PrintPatch(p)) == PatchTokens(p)
  {
    var src, dst := "--- " + p.src, "+++ " + p.dst;
    ParseTwo(src, dst);
    NamesBack(p.src);
    NamesBack(p.dst);
    ChunksBack(p.chunks);
    ParseLinesConcat([src, dst], PrintChunks(p.chunks));
  }

  lemma {:induction false} PatchesBack(ps: seq<FileDiff>)
    requires Clean(ps)
    ensures ParseLines(Print(ps)) == Tokens(ps)
  {
    if ps != [] {
      PatchesBack(ps[..|ps|-1]);
      PatchBack(ps[|ps|-1]);
      ParseLinesConcat(Print(ps[..|ps|-1]), PrintPatch(ps[|ps|-1]));
    }
  }

  // ---------- running the parser over it

  lemma {:induction false} RunConcat(st: State, a: seq<Parsed>, b: seq<Parsed>)
    requires StateOk(st)
    ensures Run(st, a + b) == Run(Run(st, a), b)
    decreases |b|
  {
    if b == [] {
      assert a + b == a;
    } else {
      RunConcat(st, a, b[..|b|-1]);
      assert (a + b)[..|a+b|-1] == a + b[..|b|-1];
    }
  }

  lemma RunMore(st: State, ts: seq<Parsed>, t: Parsed)
    requires StateOk(st)
    ensures Run(st, ts + [t]) == Step(Run(st, ts), t)
  {
    assert (ts + [t])[..|ts|] == ts;
  }

  lemma RunOne(st: State, t: Parsed)
    requires StateOk(st)
    ensures Run(st, [t]) == Step(st, t)
  {
    assert [t][..0] == [];
    assert Run(st, []) == st;
  }

  /** The state in which a patch is being read into its last chunk, or has no chunk yet. */
  function Reading(done: seq<FileDiff>, src: string, dst: string, cs: seq<Chunk>, owner: Option<nat>): State {
    Parsing(done + [FileDiff(src, dst, cs)], owner)
  }

  lemma BodyStep(done: seq<FileDiff>, src: string, dst: string, cs: seq<Chunk>, c: Chunk, l: Line)
    ensures Step(Reading(done, src, dst, cs + [c], Some(|done|)), Body(l))
         == Reading(done, src, dst, cs + [AddLine(c, l)], Some(|done|))
  {
    var ps := done + [FileDiff(src, dst, cs + [c])];
    assert ps[|done|].chunks[|cs| := AddLine(c, l)] == cs + [AddLine(c, l)];
    assert ps[|done| := FileDiff(src, dst, cs + [AddLine(c, l)])] == done + [FileDiff(src, dst, cs + [AddLine(c, l)])];
  }

  lemma {:induction false} RunLines(done: seq<FileDiff>, src: string, dst: string, cs: seq<Chunk>,
                                    a: nat, b: nat, ls: seq<Line>)
    ensures Run(Reading(done, src, dst, cs + [Chunk(a, b, [])], Some(|done|)), LineTokens(ls))
         == Reading(done, src, dst, cs + [Chunk(a, b, ls)], Some(|done|))
  {
    if ls != [] {
      var front, l := ls[..|ls|-1], ls[|ls|-1];
      RunLines(done, src, dst, cs, a, b, front);
      BodyStep(done, src, dst, cs, Chunk(a, b, front), l);
      RunMore(Reading(done, src, dst, cs + [Chunk(a, b, [])], Some(|done|)), LineTokens(front), Body(l));
      assert LineTokens(ls) == LineTokens(front) + [Body(l)] && ls == front + [l];
    }
  }

  lemma HeaderStep(done: seq<FileDiff>, src: string, dst: string, cs: seq<Chunk>, owner: Option<nat>,
                   a: nat, m: nat, b: nat, n: nat)
    requires StateOk(Reading(done, src, dst, cs, owner))
    ensures Step(Reading(done, src, dst, cs, owner), Header(a, m, b, n))
         == Reading(done, src, dst, cs + [Chunk(a, b, [])], Some(|done|))
  {
    var ps := done + [FileDiff(src, dst, cs)];
    var p := FileDiff(src, dst, cs + [Chunk(a, b, [])]);
    assert ps[|done| := p] == done + [p];
  }

  lemma RunChunk(done: seq<FileDiff>, src: string, dst: string, cs: seq<Chunk>, owner: Option<nat>, c: Chunk)
    requires CleanChunk(c) && StateOk(Reading(done, src, dst, cs, owner))
    ensures Run(Reading(done, src, dst, cs, owner), ChunkTokens(c)) == Reading(done, src, dst, cs + [c], Some(|done|))
  {
    var header := Header(c.srcPos, |SrcLines(c.lines)|, c.dstPos, |DstLines(c.lines)|);
    RunConcat(Reading(done, src, dst, cs, owner), [header], LineTokens(c.lines));
    RunOne(Reading(done, src, dst, cs, owner), header);
    HeaderStep(done, src, dst, cs, owner, c.srcPos, header.srcLen, c.dstPos, header.dstLen);
    RunLines(done, src, dst, cs, c.srcPos, c.dstPos, c.lines);
  }

  lemma {:induction false} RunChunks(done: seq<FileDiff>, src: string, dst: string, owner: Option<nat>, cs: seq<Chunk>)
    requires CleanChunks(cs)
    requires StateOk(Parsing(done, owner))
    ensures Run(Reading(done, src, dst, [], owner), ChunksTokens(cs))
         == Reading(done, src, dst, cs, if cs == [] then owner else Some(|done|))
  {
    if cs != [] {
      var front, c := cs[..|cs|-1], cs[|cs|-1];
      assert cs == front + [c];
      RunChunks(done, src, dst, owner, front);
      RunChunk(done, src, dst, front, if front == [] then owner else Some(|done|), c);
      RunConcat(Reading(done, src, dst, [], owner), ChunksTokens(front), ChunkTokens(c));
    }
  }

  lemma RunPatch(done: seq<FileDiff>, owner: Option<nat>, p: FileDiff)
    requires CleanPatch(p) && StateOk(Parsing(done, owner))
    ensures Run(Parsing(done, owner), PatchTokens(p))
         == Parsing(done + [p], if p.chunks == [] then owner else Some(|done|))
  {
    var st := Parsing(done, owner);
    RunOne(st, FileFrom(p.src));
    RunOne(Reading(done, p.src, "", [], owner), FileTo(p.dst));
    var named := FileDiff(p.src, p.dst, []);
    assert (done + [FileDiff(p.src, "", [])])[|done| := named] == done + [named];
    RunConcat(st, [FileFrom(p.src)], [FileTo(p.dst)]);
    assert [FileFrom(p.src)] + [FileTo(p.dst)] == [FileFrom(p.src), FileTo(p.dst)];
    RunConcat(st, [FileFrom(p.src), FileTo(p.dst)], ChunksTokens(p.chunks));
    RunChunks(done, p.src, p.dst, owner, p.chunks);
  }

  lemma {:induction false} RunPatches(ps: seq<FileDiff>) returns (owner: Option<nat>)
    requires Clean(ps)
    ensures Run(START, Tokens(ps)) == Parsing(ps, owner)
  {
    if ps == [] {
      owner := None;
    } else {
      var front, p := ps[..|ps|-1], ps[|ps|-1];
      assert ps == front + [p];
      var before := RunPatches(front);
      RunConcat(START, Tokens(front), PatchTokens(p));
      RunPatch(front, before, p);
      owner := if p.chunks == [] then before else Some(|front|);
    }
  }

  // ---------- writing to a file and reading it line by line

  predicate OneLiners(lines: seq<string>) {
    forall i :: 0 <= i < |lines| ==> '\n' !in lines[i]
  }

  lemma {:induction false} LineEndOf(s: string, rest: string)
    requires '\n' !in s
    ensures LineEnd(s + ("\n" + rest)) == |s|
  {
    if s == "" {
      assert s + ("\n" + rest) == "\n" + rest;
    } else {
      assert (s + ("\n" + rest))[1..] == s[1..] + ("\n" + rest);
      LineEndOf(s[1..], rest);
    }
  }

  /** A newline ends a line and is nowhere else in it; only the last line may lack one. */
  ghost predicate IsLine(line: string, last: bool) {
    line != "" && '\n' !in line[..|line|-1] && (line[|line|-1] == '\n' || last)
  }

  ghost function Joined(lines: seq<string>): string {
    if lines == [] then "" else lines[0] + Joined(lines[1..])
  }

  /** Reading takes a file apart at its newlines and loses nothing. */
  lemma {:induction false} ReadLinesAre(s: string)
    ensures Joined(ReadLines(s)) == s
    ensures forall i :: 0 <= i < |ReadLines(s)| ==> IsLine(ReadLines(s)[i], i == |ReadLines(s)| - 1)
    decreases |s|
  {
    if s != "" {
      var k := LineEnd(s);
      if k == |s| {
        assert s[..k] == s && [s][1..] == [] && Joined([s]) == s + Joined([]);
      } else {
        var first, rest := s[..k+1], s[k+1..];
        ReadLinesAre(rest);
        assert first[..|first|-1] == s[..k];
        assert ([first] + ReadLines(rest))[1..] == ReadLines(rest);
        assert s == first + rest;
        assert IsLine(first, false);
      }
    }
  }

  /** Every line with its newline. */
  function Ended(lines: seq<string>): seq<string> {
    seq(|lines|, i requires 0 <= i < |lines| => lines[i] + "\n")
  }

  lemma {:induction false} ReadBack(lines: seq<string>)
    requires OneLiners(lines)
    ensures ReadLines(Document(lines)) == Ended(lines)
  {
    if lines != [] {
      ReadFirst(lines[0], Document(lines[1..]));
      ReadBack(lines[1..]);
      EndedFirst(lines);
    }
  }

  lemma EndedFirst(lines: seq<string>)
    requires lines != []
    ensures Ended(lines) == [lines[0] + "\n"] + Ended(lines[1..])
  {
  }

  lemma ReadFirst(s: string, rest: string)
    requires '\n' !in s
    ensures ReadLines(s + ("\n" + rest)) == [s + "\n"] + ReadLines(rest)
  {
    var d := s + ("\n" + rest);
    LineEndOf(s, rest);
    assert d[..|s|+1] == s + "\n" && d[|s|+1..] == rest;
  }

  /** A newline at the end of a line makes no difference. */
  lemma EndedParseAlike(lines: seq<string>)
    requires OneLiners(lines)
    ensures ParseLines(Ended(lines)) == ParseLines(lines)
  {
    forall i | 0 <= i < |lines| ensures ParseLine(Ended(lines)[i]) == ParseLine(lines[i]) {
      ChompEnded(lines[i], Ended(lines)[i]);
    }
  }

  lemma ChompEnded(s: string, line: string)
    requires '\n' !in s && line == s + "\n"
    ensures Chomp(line) == Chomp(s)
  {
  }

  // ---------- what the parser can produce at all

  /** Beside the kinds of line that say nothing about text: names without a newline, and clean lines. */
  predicate CleanToken(t: Parsed) {
    match t
    case FileFrom(name) => '\n' !in name
    case FileTo(name) => '\n' !in name
    case Body(l) => CleanLine(l)
    case _ => true
  }

  lemma LongerPrefix(c: char, prefix: string, s: string)
    requires s != "" && s[0] == c && prefix <= s[1..]
    ensures [c] + prefix <= s
  {
    assert s == [c] + s[1..];
    assert s[1..][..|prefix|] == prefix;
    assert s[..|prefix|+1] == [c] + prefix;
  }

  /** A line that says "-- " or "++ " after its sign is taken for a file name. */
  lemma ParsedTextIsClean(s: string)
    requires '\n' !in s
    ensures CleanToken(ParseText(s))
  {
    var h := ParseHeader(s);
    assert h.Some? ==> h.value.Header?;
    if "-" <= s && "-- " <= s[1..] {
      LongerPrefix('-', "-- ", s);
    }
    if "+" <= s && "++ " <= s[1..] {
      LongerPrefix('+', "++ ", s);
    }
  }

  lemma ParsedLineIsClean(line: string)
    ensures CleanToken(ParseLine(line))
  {
    var s := Chomp(line);
    if '\n' !in s {
      ParsedTextIsClean(s);
    } else {
      assert ParseHeader(s).Some? ==> ParseHeader(s).value.Header?;
    }
  }

  /** The pattern that is a text at the start of the line, captures the rest without its newline, and has no
      newline in what it captures. */
  predicate Matches(text: string, line: string, captured: string) {
    '\n' !in captured && (line == text + captured || line == text + captured + "\n")
  }

  lemma MatchesIff(text: string, line: string, captured: string)
    requires text != "" && '\n' !in text
    ensures Matches(text, line, captured)
       <==> '\n' !in Chomp(line) && text <= Chomp(line) && Chomp(line)[|text|..] == captured
  {
    var whole, s := text + captured, Chomp(line);
    if Matches(text, line, captured) {
      OneLinerChomped(whole);
      if line != whole {
        ChompEnded(whole, line);
      }
      assert whole[..|text|] == text && whole[|text|..] == captured;
    }
    if text <= s && s[|text|..] == captured {
      assert s == whole;
      assert line == s || line == s + "\n";
    }
  }

  lemma TextReadIff(s: string, x: string)
    requires '\n' !in s
    ensures ParseText(s) == FileFrom(x) <==> "--- " <= s && s[4..] == x
    ensures ParseText(s) == FileTo(x) <==> "+++ " <= s && s[4..] == x
    ensures ParseText(s) == Body(Line(Src, x)) <==> "-" <= s && s[1..] == x && !("-- " <= x)
    ensures ParseText(s) == Body(Line(Dst, x)) <==> "+" <= s && s[1..] == x && !("++ " <= x)
    ensures ParseText(s) == Body(Line(Both, x)) <==> " " <= s && s[1..] == x
  {
    assert ParseHeader(s).Some? ==> ParseHeader(s).value.Header? && "@@ -" <= s;
    FirstCharOf("--- ", '-', s);
    FirstCharOf("+++ ", '+', s);
    FirstCharOf("@@ -", '@', s);
    if "-" <= s { SignOrName('-', "-- ", "--- ", s); }
    if "+" <= s { SignOrName('+', "++ ", "+++ ", s); }
  }

  lemma FirstCharOf(prefix: string, c: char, s: string)
    requires prefix != "" && prefix[0] == c
    ensures prefix <= s ==> s != "" && s[0] == c
  {
    if prefix <= s {
      FirstChar(prefix, s);
    }
  }

  lemma SignOrName(c: char, mark: string, name: string, s: string)
    requires name == [c] + mark && s != "" && s[0] == c
    ensures name <= s <==> mark <= s[1..]
  {
    if name <= s {
      FirstChar(name, s);
      assert name[1..] == mark;
    }
    if mark <= s[1..] {
      LongerPrefix(c, mark, s);
    }
  }

  /** What each pattern makes of a line, whatever is in it. */
  lemma LineReadIff(line: string, x: string)
    ensures ParseLine(line) == FileFrom(x) <==> Matches("--- ", line, x)
    ensures ParseLine(line) == FileTo(x) <==> Matches("+++ ", line, x)
    ensures ParseLine(line) == Body(Line(Src, x)) <==> Matches("-", line, x) && !("-- " <= x)
    ensures ParseLine(line) == Body(Line(Dst, x)) <==> Matches("+", line, x) && !("++ " <= x)
    ensures ParseLine(line) == Body(Line(Both, x)) <==> Matches(" ", line, x)
  {
    var s := Chomp(line);
    MatchesIff("--- ", line, x);
    MatchesIff("+++ ", line, x);
    MatchesIff("-", line, x);
    MatchesIff("+", line, x);
    MatchesIff(" ", line, x);
    if '\n' !in s {
      TextReadIff(s, x);
    } else {
      assert ParseHeader(s).Some? ==> ParseHeader(s).value.Header?;
    }
  }

  lemma StepClean(st: State, t: Parsed)
    requires StateOk(st) && CleanToken(t) && (st.Parsing? ==> Clean(st.patches))
    ensures Step(st, t).Parsing? ==> Clean(Step(st, t).patches)
  {
  }

  lemma {:induction false} RunClean(ts: seq<Parsed>)
    requires forall i :: 0 <= i < |ts| ==> CleanToken(ts[i])
    ensures Run(START, ts).Parsing? ==> Clean(Run(START, ts).patches)
  {
    if ts != [] {
      RunClean(ts[..|ts|-1]);
      StepClean(Run(START, ts[..|ts|-1]), ts[|ts|-1]);
    }
  }

  /** Whatever the parser returns is clean. */
  lemma ParsedIsClean(lines: seq<string>)
    ensures Parse(lines).Some? ==> Clean(Parse(lines).value)
  {
    forall i | 0 <= i < |lines| ensures CleanToken(ParseLines(lines)[i]) {
      ParsedLineIsClean(lines[i]);
    }
    RunClean(ParseLines(lines));
  }

  // ---------- the round trip

  lemma {:induction false} PrintedLinesAreOneLiners(ls: seq<Line>)
    requires forall i :: 0 <= i < |ls| ==> CleanLine(ls[i])
    ensures OneLiners(PrintLines(ls))
  {
    if ls != [] {
      PrintedLinesAreOneLiners(ls[..|ls|-1]);
    }
  }

  lemma DecimalHasNoNewline(n: nat)
    ensures '\n' !in Decimal(n)
  {
    DecimalRoundTrip(n);
  }

  lemma PrintedHeaderIsOneLiner(c: Chunk)
    requires c.srcPos >= 0 && c.dstPos >= 0
    ensures '\n' !in PrintHeader(c)
  {
    DecimalHasNoNewline(c.srcPos);
    DecimalHasNoNewline(c.dstPos);
    DecimalHasNoNewline(|SrcLines(c.lines)|);
    DecimalHasNoNewline(|DstLines(c.lines)|);
  }

  lemma PrintedChunkIsOneLiners(c: Chunk)
    requires CleanChunk(c)
    ensures OneLiners(PrintChunk(c))
  {
    PrintedHeaderIsOneLiner(c);
    PrintedLinesAreOneLiners(c.lines);
  }

  lemma {:induction false} PrintedChunksAreOneLiners(cs: seq<Chunk>)
    requires CleanChunks(cs)
    ensures OneLiners(PrintChunks(cs))
  {
    if cs != [] {
      PrintedChunksAreOneLiners(cs[..|cs|-1]);
      PrintedChunkIsOneLiners(cs[|cs|-1]);
    }
  }

  lemma {:induction false} PrintedAreOneLiners(ps: seq<FileDiff>)
    requires Clean(ps)
    ensures OneLiners(Print(ps))
  {
    if ps != [] {
      PrintedAreOneLiners(ps[..|ps|-1]);
      PrintedChunksAreOneLiners(ps[|ps|-1].chunks);
    }
  }

  /** Parsing a printed patchset gives it back if and only if it is clean. */
  lemma RoundTripIff(ps: seq<FileDiff>)
    ensures Parse(ReadLines(Document(Print(ps)))) == Some(ps) <==> Clean(ps)
  {
    if Clean(ps) {
      PrintedAreOneLiners(ps);
      ReadBack(Print(ps));
      EndedParseAlike(Print(ps));
      PatchesBack(ps);
      var owner := RunPatches(ps);
    }
    if Parse(ReadLines(Document(Print(ps)))) == Some(ps) {
      ParsedIsClean(ReadLines(Document(Print(ps))));
    }
  }

  /** So everything the parser has read, it reads again the same from what is printed. */
  lemma ParsedReadsBack(lines: seq<string>)
    requires Parse(lines).Some?
    ensures Parse(ReadLines(Document(Print(Parse(lines).value)))) == Parse(lines)
  {
    ParsedIsClean(lines);
    RoundTripIff(Parse(lines).value);
  }
}
