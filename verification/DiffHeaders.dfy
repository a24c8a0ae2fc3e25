/**
 utils/check-style.py: which chunk headers of the unified diff format its parser reads. In that format a
 range of one line is written without its count, and difflib, from which the program gets its diffs, writes it so.
 */
module DiffHeaders {
  import opened Basics
  import opened DiffRoundTrip
  import opened UnifiedDiff

  /** A range as it is written: where it starts, and perhaps how many lines it has. */
  datatype Range = Range(start: nat, count: Option<nat>)

  function ShowRange(r: Range): string {
    match r.count
    case None => Decimal(r.start)
    case Some(n) => Decimal(r.start) + ("," + Decimal(n))
  }

  /** A header, and what follows it on its line. */
  function ShowHeader(a: Range, b: Range, rest: string): string {
    "@@ -" + (ShowRange(a) + (" +" + (ShowRange(b) + (" @@" + rest))))
  }

  /** difflib's way of writing a range of n lines. */
  function DifflibRange(start: nat, n: nat): Range {
    Range(start, if n == 1 then None else Some(n))
  }

  lemma NumberThenOther(n: nat, text: string, other: string)
    requires text != "" && other != "" && text[0] != other[0] && !IsDigit(other[0])
    ensures NumberThen(text, Decimal(n) + other) == None
  {
    var d := Decimal(n);
    DecimalRoundTrip(n);
    DigitCountOf(d, other);
    assert (d + other)[..|d|] == d && (d + other)[|d|..] == other;
    NotPrefix(text, other);
  }

  lemma FirstRangeFails(s1: string)
    requires RangeThen(" +", s1) == None
    ensures ParseHeader("@@ -" + s1) == None
  {
    assert ("@@ -" + s1)[4..] == s1;
  }

  lemma SecondRangeFails(s1: string, a: nat, m: nat, s3: string)
    requires RangeThen(" +", s1) == Some(((a, m), s3)) && RangeThen(" @@", s3) == None
    ensures ParseHeader("@@ -" + s1) == None
  {
    assert ("@@ -" + s1)[4..] == s1;
  }

  lemma NoFirstCount(a: nat, rest: string)
    ensures ParseHeader("@@ -" + (Decimal(a) + (" +" + rest))) == None
  {
    NumberThenOther(a, ",", " +" + rest);
    FirstRangeFails(Decimal(a) + (" +" + rest));
  }

  lemma NoSecondCount(a: nat, m: nat, b: nat, rest: string, s3: string)
    requires s3 == Decimal(b) + (" @@" + rest)
    ensures ParseHeader("@@ -" + (Decimal(a) + ("," + (Decimal(m) + (" +" + s3))))) == None
  {
    RangeThenBack(a, m, " +", s3);
    NumberThenOther(b, ",", " @@" + rest);
    SecondRangeFails(Decimal(a) + ("," + (Decimal(m) + (" +" + s3))), a, m, s3);
  }

  lemma BothCounts(a: nat, m: nat, b: nat, n: nat, rest: string, s3: string)
    requires s3 == Decimal(b) + ("," + (Decimal(n) + (" @@" + rest)))
    ensures ParseHeader("@@ -" + (Decimal(a) + ("," + (Decimal(m) + (" +" + s3))))) == Some(Header(a, m, b, n))
  {
    RangeThenBack(a, m, " +", s3);
    RangeThenBack(b, n, " @@", rest);
    HeaderParts(Decimal(a) + ("," + (Decimal(m) + (" +" + s3))), a, m, s3, b, n, rest);
  }

  lemma Associative3(x: string, y: string, z: string, w: string)
    ensures (x + (y + z)) + w == x + (y + (z + w))
  {
  }

  lemma ReadIfCounted(a: Range, b: Range, rest: string)
    ensures ParseHeader(ShowHeader(a, b, rest))
         == if a.count.Some? && b.count.Some?
            then Some(Header(a.start, a.count.value, b.start, b.count.value)) else None
  {
    match a.count {
      case None => NoFirstCount(a.start, ShowRange(b) + (" @@" + rest));
      case Some(m) =>
        var s3 := ShowRange(b) + (" @@" + rest);
        Associative3(Decimal(a.start), ",", Decimal(m), " +" + s3);
        match b.count {
          case None => NoSecondCount(a.start, m, b.start, rest, s3);
          case Some(n) =>
            Associative3(Decimal(b.start), ",", Decimal(n), " @@" + rest);
            BothCounts(a.start, m, b.start, n, rest, s3);
        }
    }
  }

  lemma ChompBehind(s: string, rest: string)
    requires s != "" && s[|s|-1] != '\n'
    ensures Chomp(s + rest) == s + Chomp(rest)
  {
    if rest == "" {
      assert s + rest == s;
    } else {
      assert (s + rest)[..|s + rest|-1] == s + rest[..|rest|-1];
    }
  }

  lemma ChompedHeader(a: Range, b: Range, rest: string)
    ensures Chomp(ShowHeader(a, b, rest)) == ShowHeader(a, b, Chomp(rest))
  {
    var front := "@@ -" + (ShowRange(a) + (" +" + (ShowRange(b) + " @@")));
    assert front[|front|-1] == '@';
    ChompBehind(front, rest);
    Regroup(ShowRange(a), ShowRange(b), rest);
    Regroup(ShowRange(a), ShowRange(b), Chomp(rest));
  }

  lemma Regroup(x: string, y: string, rest: string)
    ensures "@@ -" + (x + (" +" + (y + (" @@" + rest)))) == "@@ -" + (x + (" +" + (y + " @@"))) + rest
  {
  }

  /** A header is read, with what it says, if it has both counts; else its line matches no pattern. */
  lemma HeaderReadIff(a: Range, b: Range, rest: string)
    ensures ParseLine(ShowHeader(a, b, rest))
         == if a.count.Some? && b.count.Some? then Header(a.start, a.count.value, b.start, b.count.value) else Unknown
  {
    ChompedHeader(a, b, rest);
    ReadIfCounted(a, b, Chomp(rest));
    HeaderOrNothing(ShowHeader(a, b, Chomp(rest)));
  }

  // ---------- exactly which lines are headers

  /** A nonempty string of digits, with or without zeros in front, that stands for n. */
  ghost predicate IsNumber(d: string, n: nat) {
    d != "" && AllDigits(d) && Value(d) == n
  }

  lemma {:induction false} ValueOfDigits(d: string, c: char)
    requires AllDigits(d) && IsDigit(c)
    ensures AllDigits(d + [c]) && Value(d + [c]) == 10 * Value(d) + (c as int - '0' as int)
    ensures AllDigits("0" + d) && Value("0" + d) == Value(d)
    decreases |d|
  {
    assert (d + [c])[..|d|] == d;
    if d == "" {
      assert "0" + d == "0" && "0"[..0] == "";
      assert Value("") == 0 && Value("0") == 10 * Value("0"[..0]) + 0;
    } else {
      var front, last := d[..|d|-1], d[|d|-1];
      ValueOfDigits(front, last);
      assert ("0" + d)[..|d|] == "0" + front;
    }
  }

  lemma NumberThenIff(text: string, s: string, n: nat, rest: string)
    requires text != "" && !IsDigit(text[0])
    ensures NumberThen(text, s) == Some((n, rest)) <==> exists d :: IsNumber(d, n) && s == d + (text + rest)
  {
    if NumberThen(text, s) == Some((n, rest)) {
      var k := DigitCount(s);
      assert s == s[..k] + s[k..] && s[k..] == text + rest;
      assert IsNumber(s[..k], n);
    }
    if d :| IsNumber(d, n) && s == d + (text + rest) {
      DigitCountOf(d, text + rest);
      assert s[..|d|] == d && s[|d|..] == text + rest;
      assert (text + rest)[|text|..] == rest;
    }
  }

  /** A position, a comma, a count and the given text. */
  ghost predicate IsRange(text: string, s: string, pos: nat, len: nat, rest: string) {
    exists d, e :: IsNumber(d, pos) && IsNumber(e, len) && s == d + ("," + (e + (text + rest)))
  }

  lemma RangeThenIff(text: string, s: string, pos: nat, len: nat, rest: string)
    requires text != "" && !IsDigit(text[0])
    ensures RangeThen(text, s) == Some(((pos, len), rest)) <==> IsRange(text, s, pos, len, rest)
  {
    if RangeThen(text, s) == Some(((pos, len), rest)) {
      var more := NumberThen(",", s).value.1;
      NumberThenIff(",", s, pos, more);
      NumberThenIff(text, more, len, rest);
      var d :| IsNumber(d, pos) && s == d + ("," + more);
      var e :| IsNumber(e, len) && more == e + (text + rest);
    }
    if d, e :| IsNumber(d, pos) && IsNumber(e, len) && s == d + ("," + (e + (text + rest))) {
      NumberThenIff(",", s, pos, e + (text + rest));
      NumberThenIff(text, e + (text + rest), len, rest);
    }
  }

  /** A line is read as a header just if it has this form: the mark, two ranges with both counts, the closing mark, and
      then anything. */
  lemma HeaderIff(s: string, a: nat, m: nat, b: nat, n: nat)
    ensures ParseHeader(s) == Some(Header(a, m, b, n)) <==>
              exists s1, s3, rest :: s == "@@ -" + s1 && IsRange(" +", s1, a, m, s3) && IsRange(" @@", s3, b, n, rest)
  {
    if ParseHeader(s) == Some(Header(a, m, b, n)) {
      var s1 := s[4..];
      var s3 := RangeThen(" +", s1).value.1;
      var rest := RangeThen(" @@", s3).value.1;
      assert s == "@@ -" + s1;
      RangeThenIff(" +", s1, a, m, s3);
      RangeThenIff(" @@", s3, b, n, rest);
    }
    if s1, s3, rest :| s == "@@ -" + s1 && IsRange(" +", s1, a, m, s3) && IsRange(" @@", s3, b, n, rest) {
      RangeThenIff(" +", s1, a, m, s3);
      RangeThenIff(" @@", s3, b, n, rest);
      HeaderParts(s1, a, m, s3, b, n, rest);
    }
  }

  /** What the program prints itself has both counts, and nothing behind the closing mark. */
  lemma PrintedHeaderForm(c: Chunk)
    requires c.srcPos >= 0 && c.dstPos >= 0
    ensures PrintHeader(c)
         == ShowHeader(Range(c.srcPos, Some(|SrcLines(c.lines)|)), Range(c.dstPos, Some(|DstLines(c.lines)|)), "")
  {
    var m, n := |SrcLines(c.lines)|, |DstLines(c.lines)|;
    Associative3(Decimal(c.dstPos), ",", Decimal(n), " @@" + "");
    Associative3(Decimal(c.srcPos), ",", Decimal(m), " +" + (ShowRange(Range(c.dstPos, Some(n))) + (" @@" + "")));
    assert " @@" + "" == " @@";
  }

  lemma UnknownRaises(lines: seq<string>, i: nat)
    requires i < |lines| && ParseLine(lines[i]) == Unknown
    ensures Parse(lines) == None
  {
    RunOneLine(ParseLines(lines), i);
    StaysFailed(ParseLines(lines), i + 1);
  }

  /** So the parser raises on every diff of difflib's with a chunk of one source or one destination line. */
  lemma OneLineRangeRaises(lines: seq<string>, i: nat, a: nat, m: nat, b: nat, n: nat)
    requires i < |lines| && lines[i] == ShowHeader(DifflibRange(a, m), DifflibRange(b, n), "\n")
    ensures m != 1 && n != 1 ==> ParseLine(lines[i]) == Header(a, m, b, n)
    ensures m == 1 || n == 1 ==> Parse(lines) == None
  {
    HeaderReadIff(DifflibRange(a, m), DifflibRange(b, n), "\n");
    if m == 1 || n == 1 {
      UnknownRaises(lines, i);
    }
  }

  /** The diff of two files of one line. */
  lemma OneLineFile(lines: seq<string>)
    requires lines == ["--- a\n", "+++ b\n", "@@ -1 +1 @@\n", "-x \n", "+x\n"]
    ensures Parse(lines) == None
  {
    assert Decimal(1) == "1";
    assert ShowHeader(Range(1, None), Range(1, None), "\n") == "@@ -1 +1 @@\n";
    HeaderReadIff(Range(1, None), Range(1, None), "\n");
    UnknownRaises(lines, 2);
  }
}
