/**
 utils/check-style.py: the printer (`write` of PatchChunkLine, PatchChunk and Patch) and the parser
 (`parse_patchset`) of unified diffs, on patchsets as values.
 */
module UnifiedDiff {
  import opened Basics

  /** Which side of a patch a line belongs to; a new line object belongs to none yet. */
  datatype LineType = Unset | Src | Dst | Both

  type Kind = k: LineType | k != Unset witness Src

  datatype Line = Line(kind: Kind, text: string)

  datatype Chunk = Chunk(srcPos: int, dstPos: int, lines: seq<Line>)

  datatype FileDiff = FileDiff(src: string, dst: string, chunks: seq<Chunk>)

  // ---------- decimal numbers

  predicate IsDigit(c: char) {
    '0' <= c <= '9'
  }

  function DigitChar(d: nat): (c: char)
    requires d < 10
    ensures IsDigit(c) && c as int - '0' as int == d
  {
    (d + '0' as int) as char
  }

  function Decimal(n: nat): string {
    if n < 10 then [DigitChar(n)] else Decimal(n / 10) + [DigitChar(n % 10)]
  }

  /** A number as it is printed, with its sign. */
  function ShowInt(n: int): string {
    if n < 0 then "-" + Decimal(-n) else Decimal(n)
  }

  predicate AllDigits(s: string) {
    forall i :: 0 <= i < |s| ==> IsDigit(s[i])
  }

  /** The number that a string of digits stands for. */
  function Value(s: string): nat
    requires AllDigits(s)
  {
    if s == [] then 0 else 10 * Value(s[..|s|-1]) + (s[|s|-1] as int - '0' as int)
  }

  lemma {:induction false} DecimalRoundTrip(n: nat)
    ensures AllDigits(Decimal(n)) && Decimal(n) != [] && Value(Decimal(n)) == n
  {
    if n >= 10 {
      DecimalRoundTrip(n / 10);
      assert Decimal(n)[..|Decimal(n)|-1] == Decimal(n / 10);
    } else {
      assert Decimal(n)[..0] == [];
      assert Value([]) == 0;
    }
  }

  /** The digit of n that is i places from the right. */
  ghost function DigitAt(n: nat, i: nat): nat {
    if i == 0 then n % 10 else DigitAt(n / 10, i - 1)
  }

  /** A printed number shows its decimal digits, with no zeros in front. */
  lemma {:induction false} DecimalDigits(n: nat, i: nat)
    requires i < |Decimal(n)|
    ensures Decimal(n)[|Decimal(n)|-1-i] as int == '0' as int + DigitAt(n, i)
    ensures n > 0 ==> Decimal(n)[0] != '0'
  {
    if n >= 10 {
      if i > 0 {
        DecimalDigits(n / 10, i - 1);
      } else {
        DecimalNotEmpty(n / 10);
        DecimalDigits(n / 10, 0);
      }
    }
  }

  lemma DecimalNotEmpty(n: nat)
    ensures Decimal(n) != ""
  {
  }

  // ---------- printing

  function PrintLine(l: Line): string {
    if l.kind == Src then "-" + l.text
    else if l.kind == Dst then "+" + l.text
    else " " + l.text
  }

  predicate IsSrc(k: LineType) {
    k == Src || k == Both
  }

  predicate IsDst(k: LineType) {
    k == Dst || k == Both
  }

  function SrcLines(ls: seq<Line>): seq<Line> {
    if ls == [] then [] else SrcLines(ls[..|ls|-1]) + if IsSrc(ls[|ls|-1].kind) then [ls[|ls|-1]] else []
  }

  function DstLines(ls: seq<Line>): seq<Line> {
    if ls == [] then [] else DstLines(ls[..|ls|-1]) + if IsDst(ls[|ls|-1].kind) then [ls[|ls|-1]] else []
  }

  function PrintHeader(c: Chunk): string {
    "@@ -" + (ShowInt(c.srcPos) + ("," + (Decimal(|SrcLines(c.lines)|) + (" +"
    + (ShowInt(c.dstPos) + ("," + (Decimal(|DstLines(c.lines)|) + " @@")))))))
  }

  function PrintLines(ls: seq<Line>): seq<string> {
    if ls == [] then [] else PrintLines(ls[..|ls|-1]) + [PrintLine(ls[|ls|-1])]
  }

  function PrintChunk(c: Chunk): seq<string> {
    [PrintHeader(c)] + PrintLines(c.lines)
  }

  function PrintChunks(cs: seq<Chunk>): seq<string> {
    if cs == [] then [] else PrintChunks(cs[..|cs|-1]) + PrintChunk(cs[|cs|-1])
  }

  function PrintPatch(p: FileDiff): seq<string> {
    ["--- " + p.src, "+++ " + p.dst] + PrintChunks(p.chunks)
  }

  /** The lines written for a patchset; a text with a newline in it makes for a "line" with one. */
  function Print(ps: seq<FileDiff>): seq<string> {
    if ps == [] then [] else Print(ps[..|ps|-1]) + PrintPatch(ps[|ps|-1])
  }

  /** The file: every printed line with its newline. */
  function Document(lines: seq<string>): string {
    if lines == [] then "" else lines[0] + ("\n" + Document(lines[1..]))
  }

  /** Reading a file line by line, each with its newline. An unfinished last line has none. */
  function ReadLines(s: string): seq<string> {
    if s == "" then []
    else
      var k := LineEnd(s);
      if k == |s| then [s] else [s[..k+1]] + ReadLines(s[k+1..])
  }

  function LineEnd(s: string): (k: nat)
    ensures k <= |s| && '\n' !in s[..k] && (k < |s| ==> s[k] == '\n')
  {
    if s == "" || s[0] == '\n' then 0 else 1 + LineEnd(s[1..])
  }

  // ---------- parsing

  datatype Parsed =
    | FileFrom(name: string)
    | FileTo(name: string)
    | Header(srcPos: nat, srcLen: nat, dstPos: nat, dstLen: nat)
    | Body(line: Line)
    | Unknown

  function Strip(prefix: string, s: string): Option<string> {
    if prefix <= s then Some(s[|prefix|..]) else None
  }

  function DigitCount(s: string): (k: nat)
    ensures k <= |s| && AllDigits(s[..k]) && (k < |s| ==> !IsDigit(s[k]))
  {
    if s == "" || !IsDigit(s[0]) then 0
    else
      var k := DigitCount(s[1..]);
      assert s[..k+1] == [s[0]] + s[1..][..k];
      1 + k
  }

  /** The number at the start of a text, if there is one, and what follows it. */
  function Number(s: string): Option<(nat, string)> {
    var k := DigitCount(s);
    if k == 0 then None else Some((Value(s[..k]), s[k..]))
  }

  /** A number and the given text after it. */
  function NumberThen(text: string, s: string): Option<(nat, string)> {
    match Number(s)
    case None => None
    case Some((n, rest)) =>
      match Strip(text, rest)
      case None => None
      case Some(more) => Some((n, more))
  }

  /** A position and a count, and the given text after them. */
  function RangeThen(text: string, s: string): Option<((nat, nat), string)> {
    match NumberThen(",", s)
    case None => None
    case Some((pos, more)) =>
      match NumberThen(text, more)
      case None => None
      case Some((len, rest)) => Some(((pos, len), rest))
  }

  /** A chunk header: two positions with their counts, and anything at all after the closing mark. */
  function ParseHeader(s: string): Option<Parsed> {
    match Strip("@@ -", s)
    case None => None
    case Some(more) =>
      match RangeThen(" +", more)
      case None => None
      case Some(((srcPos, srcLen), s3)) =>
        match RangeThen(" @@", s3)
        case None => None
        case Some(((dstPos, dstLen), _)) => Some(Header(srcPos, srcLen, dstPos, dstLen))
  }

  /** The patterns of parse_patchset in the order in which it tries them, on a text with no newline in it. */
  function ParseText(s: string): Parsed {
    if "--- " <= s then FileFrom(s[4..])
    else if "+++ " <= s then FileTo(s[4..])
    else if ParseHeader(s).Some? then ParseHeader(s).value
    else if "-" <= s then Body(Line(Src, s[1..]))
    else if "+" <= s then Body(Line(Dst, s[1..]))
    else if " " <= s then Body(Line(Both, s[1..]))
    else Unknown
  }

  /** A line without the newline at its end. */
  function Chomp(line: string): string {
    if line != "" && line[|line|-1] == '\n' then line[..|line|-1] else line
  }

  /** No pattern captures a newline at the end of a line; and `(.*)$` does not match a newline anywhere else, which
      leaves the pattern of the headers. */
  function ParseLine(line: string): Parsed {
    var s := Chomp(line);
    if '\n' !in s then ParseText(s)
    else if ParseHeader(s).Some? then ParseHeader(s).value
    else Unknown
  }

  /** The patches so far, and which of them owns the current chunk, always its last one. Failed stands for
      any of the parser's exceptions. */
  datatype State = Parsing(patches: seq<FileDiff>, chunkOwner: Option<nat>) | Failed

  ghost predicate StateOk(st: State) {
    st.Parsing? && st.chunkOwner.Some? ==>
      st.chunkOwner.value < |st.patches| && st.patches[st.chunkOwner.value].chunks != []
  }

  function AddLine(c: Chunk, l: Line): Chunk {
    c.(lines := c.lines + [l])
  }

  function Step(st: State, parsed: Parsed): (st': State)
    requires StateOk(st)
    ensures StateOk(st')
  {
    if st.Failed? then Failed
    else
      var ps := st.patches;
      var n := |ps|;
      match parsed
      case FileFrom(name) => Parsing(ps + [FileDiff(name, "", [])], st.chunkOwner)
      case FileTo(name) => if n == 0 then Failed else Parsing(ps[n-1 := ps[n-1].(dst := name)], st.chunkOwner)
      case Header(a, _, c, _) =>
        if n == 0 then Failed
        else Parsing(ps[n-1 := ps[n-1].(chunks := ps[n-1].chunks + [Chunk(a, c, [])])], Some(n - 1))
      case Body(l) =>
        if st.chunkOwner.None? then Failed
        else
          var o := st.chunkOwner.value;
          var cs := ps[o].chunks;
          Parsing(ps[o := ps[o].(chunks := cs[|cs|-1 := AddLine(cs[|cs|-1], l)])], st.chunkOwner)
      case Unknown => Failed
  }

  ghost function Run(st: State, ts: seq<Parsed>): (st': State)
    requires StateOk(st)
    ensures StateOk(st')
  {
    if ts == [] then st else Step(Run(st, ts[..|ts|-1]), ts[|ts|-1])
  }

  ghost function ParseLines(lines: seq<string>): seq<Parsed> {
    seq(|lines|, i requires 0 <= i < |lines| => ParseLine(lines[i]))
  }

  const START := Parsing([], None)

  /** The result of parse_patchset: None if it raises. */
  ghost function Parse(lines: seq<string>): Option<seq<FileDiff>> {
    match Run(START, ParseLines(lines))
    case Parsing(patches, _) => Some(patches)
    case Failed => None
  }

  lemma RunOneLine(ts: seq<Parsed>, i: nat)
    requires i < |ts|
    ensures Run(START, ts[..i+1]) == Step(Run(START, ts[..i]), ts[i])
  {
    assert ts[..i+1][..i] == ts[..i];
  }

  lemma {:induction false} StaysFailed(ts: seq<Parsed>, i: nat)
    requires i <= |ts| && Run(START, ts[..i]).Failed?
    ensures Run(START, ts).Failed?
    decreases |ts|
  {
    if i < |ts| {
      assert ts[..|ts|-1][..i] == ts[..i];
      StaysFailed(ts[..|ts|-1], i);
    } else {
      assert ts[..i] == ts;
    }
  }
}
