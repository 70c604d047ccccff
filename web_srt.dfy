/**
  The browser page's SubRip codec (script.js, `parseSRT`, `generateSRT`) and
  the step of `translateSubtitles` that puts the translations back onto the
  records. This codec is laxer than the desktop one: blocks are cut at every
  blank line with no CR LF normalisation, the number line goes through
  JavaScript `parseInt`, and the timing line is kept as it stands.
*/
module WebSrt {
  import opened Wrappers
  import opened Strings
  import opened WebApi

  /** A number as `parseInt` returns it: an integer, or `NaN`. */
  datatype JsNumber = Int(value: int) | NaN

  /** One record of the browser codec. */
  datatype WebSubtitle = WebSubtitle(index: JsNumber, timecode: string, text: string)

  // ---------------------------------------------------------------------
  // parseInt and `${n}`
  // ---------------------------------------------------------------------

  /** The longest prefix of `s` whose characters all satisfy `p`. */
  function LeadingRun(s: string, p: char -> bool): string {
    if s != [] && p(s[0]) then [s[0]] + LeadingRun(s[1..], p) else []
  }

  /** The run is a prefix, all of whose characters pass the test, and the
      character after it, if any, does not. */
  lemma {:induction false} LeadingRunIsLongest(s: string, p: char -> bool)
    ensures var r := LeadingRun(s, p);
      |r| <= |s| && r == s[..|r|] && (forall i :: 0 <= i < |r| ==> p(r[i])) && (|r| == |s| || !p(s[|r|]))
    decreases |s|
  {
    if s != [] && p(s[0]) {
      LeadingRunIsLongest(s[1..], p);
      var r := LeadingRun(s[1..], p);
      assert LeadingRun(s, p) == [s[0]] + r;
      assert s == [s[0]] + s[1..];
    }
  }

  predicate IsHexDigit(c: char) {
    IsDigit(c) || 'a' <= c <= 'f' || 'A' <= c <= 'F'
  }

  function HexDigitValue(c: char): (d: nat)
    requires IsHexDigit(c)
    ensures d < 16
  {
    if IsDigit(c) then DigitValue(c)
    else if 'a' <= c <= 'f' then c as int - 'a' as int + 10
    else c as int - 'A' as int + 10
  }

  /** The value of a string of hexadecimal digits. */
  function HexValue(s: string): nat
    requires forall i :: 0 <= i < |s| ==> IsHexDigit(s[i])
  {
    if s == [] then 0 else HexValue(s[..|s| - 1]) * 16 + HexDigitValue(s[|s| - 1])
  }

  /** JavaScript `parseInt(s)` with no radix: leading whitespace skipped, an
      optional sign, then the longest run of hexadecimal digits after `0x` or
      `0X`, or else of decimal digits; `NaN` when that run is empty. */
  function ParseInt(s: string): JsNumber {
    SignedNumeral(TrimStart(s, IsJsSpace))
  }

  /** The sign, then the magnitude of what follows it. */
  function SignedNumeral(t: string): JsNumber {
    if t != [] && (t[0] == '-' || t[0] == '+') then
      match Magnitude(t[1..]) {
        case Int(m) => Int(if t[0] == '-' then -m else m)
        case NaN => NaN
      }
    else Magnitude(t)
  }

  /** The value of the leading digits, in base 16 after `0x` or `0X`. */
  function Magnitude(u: string): (r: JsNumber)
    ensures r.Int? ==> r.value >= 0
  {
    if |u| >= 2 && u[0] == '0' && (u[1] == 'x' || u[1] == 'X') then
      var digits := LeadingRun(u[2..], IsHexDigit);
      LeadingRunIsLongest(u[2..], IsHexDigit);
      if digits == [] then NaN else Int(HexValue(digits))
    else
      var digits := LeadingRun(u, IsDigit);
      LeadingRunIsLongest(u, IsDigit);
      if digits == [] then NaN else Int(DigitsValue(digits))
  }

  /** `${n}` for what `parseInt` returns. */
  function NumberText(n: JsNumber): string {
    match n
    case Int(v) => IntToString(v)
    case NaN => "NaN"
  }

  lemma {:induction false} LeadingRunOf(x: string, rest: string, p: char -> bool)
    requires forall i :: 0 <= i < |x| ==> p(x[i])
    requires rest == [] || !p(rest[0])
    ensures LeadingRun(x + rest, p) == x
    decreases |x|
  {
    if x == [] {
      assert x + rest == rest;
    } else {
      assert (x + rest)[1..] == x[1..] + rest;
      LeadingRunOf(x[1..], rest, p);
    }
  }

  /** The digits of a natural number, followed by anything that cannot
      continue them, have that number as magnitude. */
  lemma MagnitudeOfNumeral(m: nat, rest: string)
    requires rest == [] || (!IsDigit(rest[0]) && rest[0] != 'x' && rest[0] != 'X')
    ensures Magnitude(NatToString(m) + rest) == Int(m)
  {
    var numeral := NatToString(m);
    var u := numeral + rest;
    assert !(|u| >= 2 && u[0] == '0' && (u[1] == 'x' || u[1] == 'X')) by {
      if |u| >= 2 && u[0] == '0' {
        assert m == 0 && numeral == "0";
        assert u[1] == rest[0];
      }
    }
    LeadingRunOf(numeral, rest, IsDigit);
    DigitsValueOfNatToString(m);
  }

  /** `parseInt` reads an integer's numeral back and stops at the first
      character that cannot continue it. */
  lemma ParseIntOfNumeral(v: int, rest: string)
    requires rest == [] || (!IsDigit(rest[0]) && rest[0] != 'x' && rest[0] != 'X')
    ensures ParseInt(IntToString(v) + rest) == Int(v)
  {
    var s := IntToString(v) + rest;
    assert s[0] == IntToString(v)[0];
    NumeralCharNotSpace(s[0]);
    ParseIntNoLeadingSpace(s);
    SignedNumeralOfNumeral(v, rest);
  }

  lemma ParseIntNoLeadingSpace(s: string)
    requires s != [] && !IsJsSpace(s[0])
    ensures ParseInt(s) == SignedNumeral(s)
  {
    TrimStartSkips([], s, IsJsSpace);
    assert [] + s == s;
  }

  lemma SignedNumeralOfNumeral(v: int, rest: string)
    requires rest == [] || (!IsDigit(rest[0]) && rest[0] != 'x' && rest[0] != 'X')
    ensures SignedNumeral(IntToString(v) + rest) == Int(v)
  {
    var s := IntToString(v) + rest;
    if v < 0 {
      assert s[0] == '-';
      assert s[1..] == NatToString(-v) + rest;
      MagnitudeOfNumeral(-v, rest);
    } else {
      assert s == NatToString(v) + rest;
      assert IsDigit(s[0]);
      MagnitudeOfNumeral(v, rest);
    }
  }

  /** `parseInt` reads back whatever `${index}` wrote, `NaN` included. */
  lemma ParseIntOfNumberText(n: JsNumber)
    ensures ParseInt(NumberText(n)) == n
  {
    match n
    case Int(v) =>
      ParseIntOfNumeral(v, []);
      assert IntToString(v) + [] == IntToString(v);
    case NaN =>
      ParseIntNoLeadingSpace("NaN");
      assert LeadingRun("NaN", IsDigit) == [];
  }

  // ---------------------------------------------------------------------
  // parseSRT
  // ---------------------------------------------------------------------

  /** What one block yields: a record when its trimmed text has at least three
      lines, nothing otherwise. */
  function BlockRecord(block: string): Option<WebSubtitle> {
    LinesRecord(Split(JsTrim(block), "\n"))
  }

  /** The number from the first line, the second line as the timing line, and
      the rest joined back as the text. */
  function LinesRecord(lines: seq<string>): Option<WebSubtitle> {
    if |lines| >= 3 then Some(WebSubtitle(ParseInt(lines[0]), lines[1], Join(lines[2..], "\n"))) else None
  }

  /** What each block yields, block by block. */
  function BlockRecords(blocks: seq<string>): (r: seq<Option<WebSubtitle>>)
    ensures |r| == |blocks|
  {
    if blocks == [] then [] else BlockRecords(blocks[..|blocks| - 1]) + [BlockRecord(blocks[|blocks| - 1])]
  }

  lemma {:induction false} BlockRecordAt(blocks: seq<string>, i: nat)
    requires i < |blocks|
    ensures BlockRecords(blocks)[i] == BlockRecord(blocks[i])
    decreases |blocks|
  {
    if i < |blocks| - 1 {
      BlockRecordAt(blocks[..|blocks| - 1], i);
    }
  }

  lemma {:induction false} BlockRecordsAppend(a: seq<string>, b: seq<string>)
    ensures BlockRecords(a + b) == BlockRecords(a) + BlockRecords(b)
    decreases |b|
  {
    if b == [] {
      assert a + b == a;
    } else {
      assert (a + b)[..|a + b| - 1] == a + b[..|b| - 1];
      BlockRecordsAppend(a, b[..|b| - 1]);
    }
  }

  /** The records present, in order. */
  function Present(records: seq<Option<WebSubtitle>>): seq<WebSubtitle> {
    if records == [] then []
    else
      var last := records[|records| - 1];
      Present(records[..|records| - 1]) + (if last.Some? then [last.value] else [])
  }

  /** What `parseSRT` returns. */
  function ParsedSrt(content: string): seq<WebSubtitle> {
    Present(BlockRecords(Split(content, "\n\n")))
  }

  /** `parseSRT`: the blocks visited in order, each record pushed as it is found. */
  method ParseSrt(srtContent: string) returns (subtitles: seq<WebSubtitle>)
    ensures subtitles == ParsedSrt(srtContent)
  {
    subtitles := [];
    var blocks := Split(srtContent, "\n\n");
    for i := 0 to |blocks|
      invariant subtitles == Present(BlockRecords(blocks[..i]))
    {
      ParsedStep(blocks, i);
      var lines := Split(JsTrim(blocks[i]), "\n");
      if |lines| >= 3 {
        var index := ParseInt(lines[0]);
        var timecode := lines[1];
        var text := Join(lines[2..], "\n");
        subtitles := subtitles + [WebSubtitle(index, timecode, text)];
      }
    }
    assert blocks[..|blocks|] == blocks;
  }

  lemma ParsedStep(blocks: seq<string>, i: nat)
    requires i < |blocks|
    ensures Present(BlockRecords(blocks[..i + 1]))
         == Present(BlockRecords(blocks[..i])) + (if BlockRecord(blocks[i]).Some? then [BlockRecord(blocks[i]).value] else [])
  {
    assert blocks[..i + 1][..i] == blocks[..i];
  }

  /** Blocks are read independently: the records of two runs of blocks are the
      records of the first followed by those of the second, so a block that
      yields nothing leaves the others in their order. */
  lemma BlocksReadIndependently(a: seq<string>, b: seq<string>)
    ensures Present(BlockRecords(a + b)) == Present(BlockRecords(a)) + Present(BlockRecords(b))
  {
    BlockRecordsAppend(a, b);
    PresentAppend(BlockRecords(a), BlockRecords(b));
  }

  lemma {:induction false} PresentAppend(x: seq<Option<WebSubtitle>>, y: seq<Option<WebSubtitle>>)
    ensures Present(x + y) == Present(x) + Present(y)
    decreases |y|
  {
    if y == [] {
      assert x + y == x;
    } else {
      assert (x + y)[..|x + y| - 1] == x + y[..|y| - 1];
      PresentAppend(x, y[..|y| - 1]);
    }
  }

  /** A record the writer and the reader agree on: a non-empty timing line
      without a line break, and a non-empty text that starts with no line
      break, ends with no whitespace and holds no blank line. */
  predicate Regenerable(sub: WebSubtitle) {
    && sub.timecode != [] && '\n' !in sub.timecode
    && RegenerableText(sub.text)
  }

  predicate RegenerableText(text: string) {
    text != [] && text[0] != '\n' && !IsJsSpace(text[|text| - 1]) && NoPair(text, '\n', '\n')
  }

  /** What a block yields: a timing line without a line break and a non-empty
      text ending in a non-whitespace character; when the block holds no blank
      line, the record can be written and read back unchanged. */
  lemma BlockRecordShape(block: string)
    ensures BlockRecord(block).Some? ==>
      var sub := BlockRecord(block).value;
      '\n' !in sub.timecode && sub.text != [] && !IsJsSpace(sub.text[|sub.text| - 1])
    ensures BlockRecord(block).Some? && NoPair(block, '\n', '\n') ==> Regenerable(BlockRecord(block).value)
  {
    var t := JsTrim(block);
    if |Split(t, "\n")| >= 3 {
      if NoPair(block, '\n', '\n') {
        TrimKeepsNoPair(block);
      }
      TrimmedLinesShape(t);
    }
  }

  /** The timing line and the text cut from a trimmed text of three or more
      lines, and what they are like when the text holds no blank line. */
  lemma TrimmedLinesShape(t: string)
    requires IsTrimmed(t, IsJsSpace) && |Split(t, "\n")| >= 3
    ensures var lines := Split(t, "\n");
      var text := Join(lines[2..], "\n");
      && '\n' !in lines[1] && text != [] && !IsJsSpace(text[|text| - 1])
      && (NoPair(t, '\n', '\n') ==> lines[1] != [] && text[0] != '\n' && NoPair(text, '\n', '\n'))
  {
    var lines := Split(t, "\n");
    var text := Join(lines[2..], "\n");
    SplitPieces(t, "\n");
    CharOfNoOccurrence(lines[1], '\n');
    LinesOfText(t);
    TrimmedTail(t, lines[0] + "\n" + lines[1] + "\n", text, IsJsSpace);
    if NoPair(t, '\n', '\n') {
      NoBlankLine(t, lines[0], lines[1], text);
    }
  }

  lemma TrimKeepsNoPair(block: string)
    requires NoPair(block, '\n', '\n')
    ensures NoPair(JsTrim(block), '\n', '\n')
  {
    var s := TrimStart(block, IsJsSpace);
    NoPairSlice(block, '\n', '\n', |block| - |s|, |block|);
    NoPairSlice(s, '\n', '\n', 0, |TrimEnd(s, IsJsSpace)|);
  }

  /** In a text without a blank line, the second line is not empty and the
      rest neither starts with a line break nor holds a blank line. */
  lemma NoBlankLine(t: string, first: string, second: string, text: string)
    requires t == first + "\n" + second + "\n" + text && NoPair(t, '\n', '\n')
    ensures second != [] && (text == [] || text[0] != '\n') && NoPair(text, '\n', '\n')
  {
    var at := |first|;
    var head := first + "\n" + second + "\n";
    assert t[at] == '\n' && t[at + 1] == (if second == [] then '\n' else second[0]);
    assert text != [] ==> t[|head| - 1] == '\n' && t[|head|] == text[0];
    NoPairSlice(t, '\n', '\n', |head|, |t|);
    assert t[|head|..] == text;
  }

  /** Every record `parseSRT` returns can be written and read back unchanged. */
  lemma ParsedAreRegenerable(content: string)
    ensures forall i :: 0 <= i < |ParsedSrt(content)| ==> Regenerable(ParsedSrt(content)[i])
  {
    var blocks := Split(content, "\n\n");
    SplitPieces(content, "\n\n");
    forall k | 0 <= k < |blocks|
      ensures NoPair(blocks[k], '\n', '\n')
    {
      NoOccurrenceIsNoPair(blocks[k], '\n', '\n');
    }
    var records := BlockRecords(blocks);
    forall k | 0 <= k < |records| && records[k].Some?
      ensures Regenerable(records[k].value)
    {
      BlockRecordAt(blocks, k);
      BlockRecordShape(blocks[k]);
    }
    PresentRegenerable(BlockRecords(blocks));
  }

  lemma {:induction false} PresentRegenerable(records: seq<Option<WebSubtitle>>)
    requires forall k :: 0 <= k < |records| && records[k].Some? ==> Regenerable(records[k].value)
    ensures forall i :: 0 <= i < |Present(records)| ==> Regenerable(Present(records)[i])
    decreases |records|
  {
    if records != [] {
      PresentRegenerable(records[..|records| - 1]);
    }
  }

  // ---------------------------------------------------------------------
  // generateSRT
  // ---------------------------------------------------------------------

  /** The text of one record: the number, the timing line and the text. */
  function RecordBlock(sub: WebSubtitle): string {
    NumberText(sub.index) + "\n" + sub.timecode + "\n" + sub.text
  }

  function RecordBlocks(subs: seq<WebSubtitle>): (r: seq<string>)
    ensures |r| == |subs|
    ensures forall i :: 0 <= i < |subs| ==> r[i] == RecordBlock(subs[i])
  {
    seq(|subs|, i requires 0 <= i < |subs| => RecordBlock(subs[i]))
  }

  /** `generateSRT`: the records' blocks joined by blank lines, with no final newline. */
  function GenerateSrt(subs: seq<WebSubtitle>): (r: string)
    ensures r == [] <==> subs == []
    ensures |subs| >= 1 ==> RecordBlock(subs[0]) <= r
  {
    var blocks := RecordBlocks(subs);
    if |subs| >= 2 then
      JoinCons(blocks[0], blocks[1..], "\n\n");
      assert blocks == [blocks[0]] + blocks[1..];
      Join(blocks, "\n\n")
    else
      Join(blocks, "\n\n")
  }

  lemma NumberTextNoBreak(n: JsNumber)
    ensures NumberText(n) != [] && '\n' !in NumberText(n)
  {
  }

  lemma NumberTextTrimmed(n: JsNumber)
    ensures NumberText(n) != [] && IsTrimmed(NumberText(n), IsJsSpace)
  {
    var s := NumberText(n);
    if n.Int? {
      NumeralCharNotSpace(s[0]);
      NumeralCharNotSpace(s[|s| - 1]);
    }
  }

  /** A line break in a record's block is never followed by another, even
      across the line break that ends it. */
  lemma RecordBlockNoPair(sub: WebSubtitle)
    requires Regenerable(sub)
    ensures NoPair(RecordBlock(sub) + "\n", '\n', '\n')
  {
    var number := NumberText(sub.index);
    NumberTextNoBreak(sub.index);
    NoPairWithout(number, '\n', '\n');
    NoPairWithout(sub.timecode, '\n', '\n');
    var x1 := number + "\n";
    NoPairConcat(number, "\n", '\n', '\n');
    var x2 := x1 + sub.timecode;
    NoPairConcat(x1, sub.timecode, '\n', '\n');
    var x3 := x2 + "\n";
    NoPairConcat(x2, "\n", '\n', '\n');
    var x4 := x3 + sub.text;
    NoPairConcat(x3, sub.text, '\n', '\n');
    NoPairConcat(x4, "\n", '\n', '\n');
    assert RecordBlock(sub) == x4;
  }

  /** A record's block reads back as that record. */
  lemma BlockRecordOfRecordBlock(sub: WebSubtitle)
    requires Regenerable(sub)
    ensures BlockRecord(RecordBlock(sub)) == Some(sub)
  {
    RecordBlockIsTrimmed(sub);
    RecordBlockLines(sub);
    LinesRecordOfRecord(sub);
  }

  lemma RecordBlockIsTrimmed(sub: WebSubtitle)
    requires Regenerable(sub)
    ensures JsTrim(RecordBlock(sub)) == RecordBlock(sub)
  {
    var number := NumberText(sub.index);
    var block := RecordBlock(sub);
    NumberTextTrimmed(sub.index);
    assert block[0] == number[0];
    assert block[|block| - 1] == sub.text[|sub.text| - 1];
    TrimOfTrimmed(block, IsJsSpace);
  }

  /** The lines of a record's block: the number, the timing line, then the
      lines of the text. */
  lemma RecordBlockLines(sub: WebSubtitle)
    requires Regenerable(sub)
    ensures Split(RecordBlock(sub), "\n") == [NumberText(sub.index), sub.timecode] + Split(sub.text, "\n")
  {
    NumberTextNoBreak(sub.index);
    SplitTwoLines(NumberText(sub.index), sub.timecode, sub.text);
  }

  lemma LinesRecordOfRecord(sub: WebSubtitle)
    ensures LinesRecord([NumberText(sub.index), sub.timecode] + Split(sub.text, "\n")) == Some(sub)
  {
    var lines := [NumberText(sub.index), sub.timecode] + Split(sub.text, "\n");
    assert lines[2..] == Split(sub.text, "\n");
    JoinSplit(sub.text, "\n");
    ParseIntOfNumberText(sub.index);
  }

  lemma {:induction false} PresentAll(subs: seq<WebSubtitle>)
    ensures Present(seq(|subs|, i requires 0 <= i < |subs| => Some(subs[i]))) == subs
    decreases |subs|
  {
    if subs != [] {
      var n := |subs|;
      var records := seq(n, i requires 0 <= i < n => Some(subs[i]));
      assert records[..n - 1] == seq(n - 1, i requires 0 <= i < n - 1 => Some(subs[..n - 1][i]));
      PresentAll(subs[..n - 1]);
      assert subs[..n - 1] + [subs[n - 1]] == subs;
    }
  }

  /** Reading what `generateSRT` wrote gives back the records, in order, when
      each is `Regenerable`; an empty list is written as an empty text and read
      back as no records. */
  lemma ParseGenerated(subs: seq<WebSubtitle>)
    requires forall i :: 0 <= i < |subs| ==> Regenerable(subs[i])
    ensures ParsedSrt(GenerateSrt(subs)) == subs
  {
    if subs == [] {
      EmptyTextHasNoRecords();
    } else {
      SplitGenerated(subs);
      RecordsOfRecordBlocks(subs);
      PresentAll(subs);
    }
  }

  /** An empty text is one block with no record in it. */
  lemma EmptyTextHasNoRecords()
    ensures ParsedSrt("") == []
  {
    assert Split("", "\n\n") == [""];
    NoRecordIn([""]);
  }

  /** Blocks of fewer than three lines yield nothing. */
  lemma {:induction false} NoRecordIn(blocks: seq<string>)
    requires forall k :: 0 <= k < |blocks| ==> |Split(JsTrim(blocks[k]), "\n")| < 3
    ensures Present(BlockRecords(blocks)) == []
    decreases |blocks|
  {
    if blocks != [] {
      NoRecordIn(blocks[..|blocks| - 1]);
    }
  }

  /** Cutting the written text at blank lines gives back the records' blocks. */
  lemma SplitGenerated(subs: seq<WebSubtitle>)
    requires subs != [] && forall i :: 0 <= i < |subs| ==> Regenerable(subs[i])
    ensures Split(GenerateSrt(subs), "\n\n") == RecordBlocks(subs)
  {
    var blocks := RecordBlocks(subs);
    forall i | 0 <= i < |blocks|
      ensures NoOccurrence(blocks[i] + "\n\n"[..1], "\n\n")
    {
      RecordBlockNoPair(subs[i]);
      NoPairIsNoOccurrence(blocks[i] + "\n", '\n', '\n');
      assert "\n\n"[..1] == "\n";
    }
    SplitJoin(blocks, "\n\n");
  }

  lemma RecordsOfRecordBlocks(subs: seq<WebSubtitle>)
    requires forall i :: 0 <= i < |subs| ==> Regenerable(subs[i])
    ensures BlockRecords(RecordBlocks(subs)) == seq(|subs|, i requires 0 <= i < |subs| => Some(subs[i]))
  {
    var blocks := RecordBlocks(subs);
    forall i | 0 <= i < |subs|
      ensures BlockRecords(blocks)[i] == Some(subs[i])
    {
      BlockRecordAt(blocks, i);
      BlockRecordOfRecordBlock(subs[i]);
    }
  }

  /** Reading, writing and reading again gives what the first reading gave. */
  lemma ParseIsIdempotent(content: string)
    ensures ParsedSrt(GenerateSrt(ParsedSrt(content))) == ParsedSrt(content)
  {
    ParsedAreRegenerable(content);
    ParseGenerated(ParsedSrt(content));
  }

  /** An empty timing line makes the writer produce a blank line inside the
      block, and the record is lost on reading: this is why `Regenerable`
      asks for a non-empty timing line. */
  lemma EmptyTimecodeIsLost(index: JsNumber, text: string)
    requires text != [] && IsTrimmed(text, IsJsSpace) && '\n' !in text
    ensures ParsedSrt(GenerateSrt([WebSubtitle(index, "", text)])) == []
  {
    var sub := WebSubtitle(index, "", text);
    GenerateSingle(sub);
    NumberTextNoBreak(index);
    NumberTextTrimmed(index);
    TwoLinesHaveNoRecord(NumberText(index), text);
  }

  /** A single record is written as its own block. */
  lemma GenerateSingle(sub: WebSubtitle)
    ensures GenerateSrt([sub]) == RecordBlock(sub)
  {
    assert RecordBlocks([sub]) == [RecordBlock(sub)];
  }

  /** Two lines with a blank line between them yield no record. */
  lemma TwoLinesHaveNoRecord(first: string, second: string)
    requires first != [] && IsTrimmed(first, IsJsSpace) && '\n' !in first
    requires second != [] && IsTrimmed(second, IsJsSpace) && '\n' !in second
    ensures ParsedSrt(first + "\n" + "" + "\n" + second) == []
  {
    assert first + "\n" + "" + "\n" + second == first + "\n\n" + second;
    SplitAtBlankLine(first, second);
    LonePairHasNoRecord(first, second);
  }

  lemma LonePairHasNoRecord(first: string, second: string)
    requires first != [] && IsTrimmed(first, IsJsSpace) && '\n' !in first
    requires second != [] && IsTrimmed(second, IsJsSpace) && '\n' !in second
    ensures Present(BlockRecords([first, second])) == []
  {
    LoneLineHasNoRecord(first);
    LoneLineHasNoRecord(second);
    BlockRecordsOfPair(first, second);
    PresentOfNothing([None, None]);
  }

  lemma PresentOfNothing(records: seq<Option<WebSubtitle>>)
    requires records == [None, None]
    ensures Present(records) == []
  {
    var single := records[..1];
    assert single[..0] == [];
    assert Present(single) == [];
  }

  lemma BlockRecordsOfPair(a: string, b: string)
    ensures BlockRecords([a, b]) == [BlockRecord(a), BlockRecord(b)]
  {
    assert [a, b][..1] == [a];
    assert [a][..0] == [];
  }

  /** A single trimmed line yields no record. */
  lemma LoneLineHasNoRecord(line: string)
    requires line != [] && IsTrimmed(line, IsJsSpace) && '\n' !in line
    ensures BlockRecord(line) == None
  {
    LoneLine(line);
  }

  /** Two lines with a blank line between them are two blocks. */
  lemma SplitAtBlankLine(first: string, second: string)
    requires '\n' !in first && '\n' !in second
    ensures Split(first + "\n\n" + second, "\n\n") == [first, second]
  {
    NoPairWithout(first, '\n', '\n');
    NoPairConcat(first, "\n", '\n', '\n');
    NoPairIsNoOccurrence(first + "\n", '\n', '\n');
    assert "\n\n" == ['\n', '\n'] && first + "\n\n"[..1] == first + "\n";
    SplitAfter(first, "\n\n", second);
    NoPairWithout(second, '\n', '\n');
    NoPairIsNoOccurrence(second, '\n', '\n');
    SplitWithout(second, "\n\n");
  }

  lemma LoneLine(line: string)
    requires line != [] && IsTrimmed(line, IsJsSpace) && '\n' !in line
    ensures Split(JsTrim(line), "\n") == [line]
  {
    TrimOfTrimmed(line, IsJsSpace);
    NoOccurrenceOfChar(line, '\n');
    SplitWithout(line, "\n");
  }

  // ---------------------------------------------------------------------
  // translateSubtitles
  // ---------------------------------------------------------------------

  /** The texts sent for translation, one per record. */
  function Texts(subs: seq<WebSubtitle>): (r: seq<string>)
    ensures |r| == |subs| && forall i :: 0 <= i < |subs| ==> r[i] == subs[i].text
  {
    seq(|subs|, i requires 0 <= i < |subs| => subs[i].text)
  }

  /** What the `catch` block throws when the batch threw `null`: reading
      `error.message` on `null` raises a `TypeError` (V8's wording). */
  const NullMessageError := JsError("Cannot read properties of null (reading 'message')")

  /** How `translateSubtitles` settles once the batch has settled. The records
      come back with the translations put back, and a record whose translation
      is missing or empty keeps its text. A batch that threw an error leaves
      every record as it was. A batch that threw `null` makes the `catch`
      block itself throw, so no records come back. */
  function Translated(subs: seq<WebSubtitle>, batch: Completion<seq<string>>): (r: Completion<seq<WebSubtitle>>)
    ensures r.Threw? <==> batch == Threw(None)
    ensures r.Threw? ==> r.error == Some(NullMessageError)
    ensures batch.Threw? && batch.error.Some? ==> r == Returned(subs)
    ensures r.Returned? ==> |r.value| == |subs|
    ensures r.Returned? ==> forall i :: 0 <= i < |subs| ==>
      r.value[i].index == subs[i].index && r.value[i].timecode == subs[i].timecode
    ensures batch.Returned? ==> forall i :: 0 <= i < |subs| ==>
      r.value[i].text == (if i < |batch.value| && batch.value[i] != "" then batch.value[i] else subs[i].text)
  {
    match batch
    case Threw(None) => Threw(Some(NullMessageError))
    case Threw(Some(_)) => Returned(subs)
    case Returned(texts) =>
      Returned(seq(|subs|, i requires 0 <= i < |subs| =>
        subs[i].(text := if i < |texts| && texts[i] != "" then texts[i] else subs[i].text)))
  }

  /** The mapping of `translateSubtitles`, fed by `translateBatch`: each record
      gets its own text's translation when every call returns, blank texts and
      empty answers keep the original, a thrown error keeps every record, and a
      thrown `null` makes the whole call throw. */
  lemma TranslateSubtitles(subs: seq<WebSubtitle>, targetLang: string, config: Config,
                           fetchFor: nat -> (string, nat) -> FetchReply, order: seq<nat>)
    requires |subs| <= ParallelLimit ==> forall i :: 0 <= i < |subs| ==> i in order
    ensures var batch := BatchOutcome(Texts(subs), targetLang, config, fetchFor, order);
      var r := Translated(subs, batch);
      && (batch.Threw? <==> exists i :: 0 <= i < |subs| && TextTranslation(subs[i].text, targetLang, config, fetchFor(i)).Threw?)
      && (batch.Threw? && !r.Threw? ==> r == Returned(subs))
      && (batch.Returned? ==> r.Returned? && forall i :: 0 <= i < |subs| ==>
            var t := TextTranslation(subs[i].text, targetLang, config, fetchFor(i)).value;
            r.value[i] == subs[i].(text := if t != "" then t else subs[i].text))
      && (r.Returned? ==> forall i :: 0 <= i < |subs| && IsBlank(subs[i].text) ==> r.value[i] == subs[i])
  {
    var texts := Texts(subs);
    BatchKeepsOrder(texts, targetLang, config, fetchFor, order);
  }

  /** `translateSubtitles` throws exactly when the key is configured, the retry
      count is negative and some record has a non-blank text: then every such
      text's call throws `null`, and only then does any call throw `null`. */
  lemma NullRejection(subs: seq<WebSubtitle>, targetLang: string, config: Config,
                      fetchFor: nat -> (string, nat) -> FetchReply, order: seq<nat>)
    requires |subs| <= ParallelLimit ==> forall i :: 0 <= i < |subs| ==> i in order
    ensures Translated(subs, BatchOutcome(Texts(subs), targetLang, config, fetchFor, order)).Threw? <==>
      (config.apiKey != PlaceholderKey && config.maxRetries < 0 &&
       exists i :: 0 <= i < |subs| && !IsBlank(subs[i].text))
  {
    NullOnlyFromNegativeBudget(subs, targetLang, config, fetchFor, order);
    if config.apiKey != PlaceholderKey && config.maxRetries < 0 &&
       exists i :: 0 <= i < |subs| && !IsBlank(subs[i].text) {
      var i :| 0 <= i < |subs| && !IsBlank(subs[i].text);
      NegativeBudgetThrowsNull(subs, targetLang, config, fetchFor, order, i);
    }
  }

  lemma NullOnlyFromNegativeBudget(subs: seq<WebSubtitle>, targetLang: string, config: Config,
                                   fetchFor: nat -> (string, nat) -> FetchReply, order: seq<nat>)
    requires |subs| <= ParallelLimit ==> forall i :: 0 <= i < |subs| ==> i in order
    ensures BatchOutcome(Texts(subs), targetLang, config, fetchFor, order) == Threw(None) ==>
      config.apiKey != PlaceholderKey && config.maxRetries < 0 &&
      exists i :: 0 <= i < |subs| && !IsBlank(subs[i].text)
  {
    var texts := Texts(subs);
    var batch := BatchOutcome(texts, targetLang, config, fetchFor, order);
    BatchRejection(texts, targetLang, config, fetchFor, order);
    if batch == Threw(None) {
      var i :| 0 <= i < |texts| && TextTranslation(texts[i], targetLang, config, fetchFor(i)) == Threw(None);
      assert texts[i] == subs[i].text;
    }
  }

  lemma NegativeBudgetThrowsNull(subs: seq<WebSubtitle>, targetLang: string, config: Config,
                                 fetchFor: nat -> (string, nat) -> FetchReply, order: seq<nat>, k: nat)
    requires |subs| <= ParallelLimit ==> forall i :: 0 <= i < |subs| ==> i in order
    requires config.apiKey != PlaceholderKey && config.maxRetries < 0
    requires k < |subs| && !IsBlank(subs[k].text)
    ensures BatchOutcome(Texts(subs), targetLang, config, fetchFor, order) == Threw(None)
  {
    var texts := Texts(subs);
    var batch := BatchOutcome(texts, targetLang, config, fetchFor, order);
    BatchKeepsOrder(texts, targetLang, config, fetchFor, order);
    BatchRejection(texts, targetLang, config, fetchFor, order);
    assert !TextTranslation(texts[k], targetLang, config, fetchFor(k)).Returned?;
    var i :| 0 <= i < |texts| && TextTranslation(texts[i], targetLang, config, fetchFor(i)) == Threw(batch.error);
    assert texts[i] == subs[i].text;
    assert !IsBlank(texts[i]);
  }

  /** Putting back translations that are themselves `RegenerableText` keeps
      every record writable and readable back unchanged. */
  lemma TranslatedRoundTrip(subs: seq<WebSubtitle>, batch: Completion<seq<string>>)
    requires forall i :: 0 <= i < |subs| ==> Regenerable(subs[i])
    requires batch.Returned? ==> forall i :: 0 <= i < |batch.value| && batch.value[i] != "" ==> RegenerableText(batch.value[i])
    ensures Translated(subs, batch).Returned? ==>
      ParsedSrt(GenerateSrt(Translated(subs, batch).value)) == Translated(subs, batch).value
  {
    if Translated(subs, batch).Threw? {
      return;
    }
    var r := Translated(subs, batch).value;
    forall i | 0 <= i < |r|
      ensures Regenerable(r[i])
    {
      assert Regenerable(subs[i]);
    }
    ParseGenerated(r);
  }
}
