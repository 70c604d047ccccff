/**
  The desktop application's native SubRip codec (code.py, `Subtitle` and
  `NativeSrtParser`): choosing a text encoding, cutting the decoded text into
  blocks, parsing each block into a record or skipping it with a warning, and
  writing records back out.
*/
module SrtCodec {
  import opened Wrappers
  import opened Strings

  // ---------------------------------------------------------------------
  // Records and their text form
  // ---------------------------------------------------------------------

  /** One subtitle entry: the number written in the file, the two times as text, and the body. */
  datatype Subtitle = Subtitle(index: int, startTime: string, endTime: string, content: string)

  /** `Subtitle.__str__`: the index line, the timing line and the content, each ended by a newline. */
  function SubtitleText(sub: Subtitle): string {
    IntToString(sub.index) + "\n" + sub.startTime + " --> " + sub.endTime + "\n" + sub.content + "\n"
  }

  /** What `compose` writes: every record's text, with one extra newline between
      two records and none after the last. */
  function Composed(subs: seq<Subtitle>): string {
    if |subs| == 0 then ""
    else if |subs| == 1 then SubtitleText(subs[0])
    else SubtitleText(subs[0]) + "\n" + Composed(subs[1..])
  }

  lemma {:induction false} ComposedSnoc(subs: seq<Subtitle>, sub: Subtitle)
    requires |subs| > 0
    ensures Composed(subs + [sub]) == Composed(subs) + "\n" + SubtitleText(sub)
    decreases |subs|
  {
    if |subs| > 1 {
      assert (subs + [sub])[1..] == subs[1..] + [sub];
      ComposedSnoc(subs[1..], sub);
    } else {
      assert (subs + [sub])[1..] == [sub];
    }
  }

  /** The text of the first `i + 1` records is that of the first `i`, a blank
      line when there were any, and the next record's text. */
  lemma ComposedStep(subs: seq<Subtitle>, i: nat)
    requires i < |subs|
    ensures Composed(subs[..i + 1])
         == (if i == 0 then "" else Composed(subs[..i]) + "\n") + SubtitleText(subs[i])
  {
    if i > 0 {
      assert subs[..i + 1] == subs[..i] + [subs[i]];
      ComposedSnoc(subs[..i], subs[i]);
    } else {
      assert subs[..1] == [subs[0]];
    }
  }

  /** `NativeSrtParser.compose` without the file: the text written block by block. */
  method Compose(subs: seq<Subtitle>) returns (out: string)
    ensures out == Composed(subs)
  {
    out := "";
    for i := 0 to |subs|
      invariant out == Composed(subs[..i]) + (if 0 < i < |subs| then "\n" else "")
    {
      var sub := subs[i];
      var written := IntToString(sub.index) + "\n" + sub.startTime + " --> " + sub.endTime + "\n" + sub.content + "\n";
      out := out + written;
      ComposedStep(subs, i);
      if i < |subs| - 1 {
        out := out + "\n";
      }
    }
    assert subs[..|subs|] == subs;
  }

  // ---------------------------------------------------------------------
  // The timing line
  // ---------------------------------------------------------------------

  /** `\d{2}:\d{2}:\d{2},\d{3}`, with ASCII digits. */
  predicate IsTimestamp(t: string) {
    && |t| == 12
    && IsDigit(t[0]) && IsDigit(t[1]) && t[2] == ':'
    && IsDigit(t[3]) && IsDigit(t[4]) && t[5] == ':'
    && IsDigit(t[6]) && IsDigit(t[7]) && t[8] == ','
    && IsDigit(t[9]) && IsDigit(t[10]) && IsDigit(t[11])
  }

  /** `TIMESTAMP_REGEX.match(line)`: anchored at the start only, whitespace around
      the arrow optional, anything after the end time ignored; the two groups. */
  function MatchTimestamps(line: string): (r: Option<(string, string)>)
    ensures r.Some? ==> |line| >= 12 && r.value.0 == line[..12]
    ensures r.Some? ==> IsTimestamp(r.value.0) && IsTimestamp(r.value.1)
  {
    if |line| < 12 || !IsTimestamp(line[..12]) then None
    else
      var afterStart := TrimStart(line[12..], IsPySpace);
      if |afterStart| < 3 || afterStart[..3] != "-->" then None
      else
        var afterArrow := TrimStart(afterStart[3..], IsPySpace);
        if |afterArrow| < 12 || !IsTimestamp(afterArrow[..12]) then None
        else Some((line[..12], afterArrow[..12]))
  }

  /** The leniency of the pattern: any run of whitespace on either side of the
      arrow, and anything at all after the end time. */
  lemma MatchLenientTimingLine(start: string, gap1: string, gap2: string, end: string, rest: string)
    requires IsTimestamp(start) && IsTimestamp(end)
    requires forall i :: 0 <= i < |gap1| ==> IsPySpace(gap1[i])
    requires forall i :: 0 <= i < |gap2| ==> IsPySpace(gap2[i])
    ensures MatchTimestamps(start + gap1 + "-->" + gap2 + end + rest) == Some((start, end))
  {
    var afterArrow := end + rest;
    var mid := gap2 + afterArrow;
    var afterStart := "-->" + mid;
    var tail := gap1 + afterStart;
    RegroupRight(start, gap1, "-->", gap2, end, rest);
    SplitConcat(start, tail);
    assert afterStart[0] == '-';
    TrimStartSkips(gap1, afterStart, IsPySpace);
    SplitConcat("-->", mid);
    assert !IsPySpace(afterArrow[0]);
    TrimStartSkips(gap2, afterArrow, IsPySpace);
    SplitConcat(end, rest);
  }

  lemma RegroupRight(a: string, b: string, c: string, d: string, e: string, f: string)
    ensures a + b + c + d + e + f == a + (b + (c + (d + (e + f))))
  {
  }

  lemma SplitConcat(a: string, b: string)
    ensures (a + b)[..|a|] == a && (a + b)[|a|..] == b
  {
  }

  // ---------------------------------------------------------------------
  // Blocks
  // ---------------------------------------------------------------------

  /** Why a block was skipped; each carries what the warning line shows. */
  datatype Malformation =
    | TooFewLines(firstLine: string)
    | InvalidIndex(line: string)
    | InvalidTimestamp(index: int, line: string)

  datatype BlockOutcome = Blank | Parsed(sub: Subtitle) | Malformed(why: Malformation)

  predicate IsByteOrderMark(c: char) {
    c == '\U{feff}'
  }

  /** One block of the loop in `parse`: stripped, then blank or cut into lines. */
  function ParseBlock(raw: string): BlockOutcome {
    var block := PyStrip(raw);
    if block == "" then Blank else ParseLines(Split(block, "\n"))
  }

  /** The lines of a non-blank block: index, timing line and content, checked
      in that order; the first failing check names the warning. */
  function ParseLines(lines: seq<string>): (r: BlockOutcome)
    requires |lines| >= 1
    ensures !r.Blank?
    ensures r.Parsed? <==>
      |lines| >= 3 && PyInt(TrimStart(lines[0], IsByteOrderMark)).Some? && MatchTimestamps(lines[1]).Some?
    ensures |lines| < 3 ==> r == Malformed(TooFewLines(lines[0]))
    ensures |lines| >= 3 && PyInt(TrimStart(lines[0], IsByteOrderMark)).None? ==> r == Malformed(InvalidIndex(lines[0]))
    ensures |lines| >= 3 && PyInt(TrimStart(lines[0], IsByteOrderMark)).Some? && MatchTimestamps(lines[1]).None? ==>
      r == Malformed(InvalidTimestamp(PyInt(TrimStart(lines[0], IsByteOrderMark)).value, lines[1]))
    ensures r.Parsed? ==> |lines| >= 3 && PyInt(TrimStart(lines[0], IsByteOrderMark)) == Some(r.sub.index)
    ensures r.Parsed? ==> (r.sub.startTime, r.sub.endTime) == MatchTimestamps(lines[1]).value
    ensures r.Parsed? ==> IsTimestamp(r.sub.startTime) && IsTimestamp(r.sub.endTime)
    ensures r.Parsed? ==> IsTrimmed(r.sub.content, IsPySpace)
    ensures r.Parsed? ==> r.sub.content == PyStrip(Join(lines[2..], "\n"))
  {
    if |lines| < 3 then Malformed(TooFewLines(lines[0]))
    else
      match PyInt(TrimStart(lines[0], IsByteOrderMark))
      case None => Malformed(InvalidIndex(lines[0]))
      case Some(index) =>
        match MatchTimestamps(lines[1])
        case None => Malformed(InvalidTimestamp(index, lines[1]))
        case Some(times) => Parsed(Subtitle(index, times.0, times.1, PyStrip(Join(lines[2..], "\n"))))
  }

  /** What the loop of `parse` makes of each block, in block order. */
  function OutcomesOf(blocks: seq<string>): (r: seq<BlockOutcome>)
    ensures |r| == |blocks|
  {
    if blocks == [] then [] else [ParseBlock(blocks[0])] + OutcomesOf(blocks[1..])
  }

  /** The records among the outcomes, in order. */
  function RecordsOf(outcomes: seq<BlockOutcome>): seq<Subtitle> {
    if outcomes == [] then []
    else (if outcomes[0].Parsed? then [outcomes[0].sub] else []) + RecordsOf(outcomes[1..])
  }

  /** One line of the log of `parse`. */
  datatype LogEvent =
    | DecodeFailed(encoding: Encoding)
    | DecodeSucceeded(encoding: Encoding)
    | BlockSkipped(blockNumber: nat, why: Malformation)

  /** The warnings for the skipped blocks, numbered from `first` in block order. */
  function WarningsOf(outcomes: seq<BlockOutcome>, first: nat): seq<LogEvent> {
    if outcomes == [] then []
    else
      (if outcomes[0].Malformed? then [BlockSkipped(first, outcomes[0].why)] else [])
      + WarningsOf(outcomes[1..], first + 1)
  }

  /** A block is blank exactly when it holds nothing but whitespace. */
  lemma BlankBlock(raw: string)
    ensures ParseBlock(raw).Blank? <==> forall i :: 0 <= i < |raw| ==> IsPySpace(raw[i])
  {
    var block := PyStrip(raw);
    assert block == [] <==> forall i :: 0 <= i < |raw| ==> IsPySpace(raw[i]);
  }

  /** A parsed record carries two well-formed times and a stripped body. */
  lemma ParsedRecordShape(raw: string)
    requires ParseBlock(raw).Parsed?
    ensures IsTimestamp(ParseBlock(raw).sub.startTime) && IsTimestamp(ParseBlock(raw).sub.endTime)
    ensures IsTrimmed(ParseBlock(raw).sub.content, IsPySpace)
  {
    var block := PyStrip(raw);
    assert block != [];
  }

  /** The body lines of a stripped block of three or more lines hold a
      non-space character: the block's last one. */
  lemma BodyLinesNotBlank(block: string)
    requires block != [] && IsTrimmed(block, IsPySpace) && |Split(block, "\n")| >= 3
    ensures PyStrip(Join(Split(block, "\n")[2..], "\n")) != []
  {
    var lines := Split(block, "\n");
    LinesOfText(block);
    TrimmedTail(block, lines[0] + "\n" + lines[1] + "\n", Join(lines[2..], "\n"), IsPySpace);
  }

  /** A parsed record's body is never empty. */
  lemma ParsedContentNonEmpty(raw: string)
    requires ParseBlock(raw).Parsed?
    ensures ParseBlock(raw).sub.content != []
  {
    var block := PyStrip(raw);
    BodyLinesNotBlank(block);
  }

  /** Every record of a parsed list has a non-empty body. */
  lemma RecordsHaveContent(blocks: seq<string>)
    ensures forall i :: 0 <= i < |SubtitlesOf(blocks)| ==> SubtitlesOf(blocks)[i].content != []
  {
    var outcomes := OutcomesOf(blocks);
    forall i | 0 <= i < |outcomes| && outcomes[i].Parsed?
      ensures outcomes[i].sub.content != []
    {
      OutcomeAt(blocks, i);
      ParsedContentNonEmpty(blocks[i]);
    }
    RecordsKeepContent(outcomes);
  }

  lemma {:induction false} RecordsKeepContent(outcomes: seq<BlockOutcome>)
    requires forall i :: 0 <= i < |outcomes| && outcomes[i].Parsed? ==> outcomes[i].sub.content != []
    ensures forall i :: 0 <= i < |RecordsOf(outcomes)| ==> RecordsOf(outcomes)[i].content != []
    decreases |outcomes|
  {
    if outcomes != [] {
      RecordsKeepContent(outcomes[1..]);
    }
  }

  /** The outcome at a position is that block's outcome. */
  lemma {:induction false} OutcomeAt(blocks: seq<string>, i: nat)
    requires i < |blocks|
    ensures OutcomesOf(blocks)[i] == ParseBlock(blocks[i])
    decreases i
  {
    if i > 0 {
      OutcomeAt(blocks[1..], i - 1);
    }
  }

  /** The records of the blocks that parse, in block order. */
  function SubtitlesOf(blocks: seq<string>): seq<Subtitle> {
    RecordsOf(OutcomesOf(blocks))
  }

  /** Line endings normalised, the text stripped, then cut at every blank line. */
  function BlocksOf(text: string): seq<string> {
    Split(PyStrip(ReplaceAll(text, "\r\n", "\n")), "\n\n")
  }

  lemma {:induction false} OutcomesOfAppend(a: seq<string>, b: seq<string>)
    ensures OutcomesOf(a + b) == OutcomesOf(a) + OutcomesOf(b)
    decreases |a|
  {
    if a != [] {
      assert (a + b)[0] == a[0] && (a + b)[1..] == a[1..] + b;
      OutcomesOfAppend(a[1..], b);
    } else {
      assert a + b == b;
    }
  }

  lemma {:induction false} RecordsOfAppend(a: seq<BlockOutcome>, b: seq<BlockOutcome>)
    ensures RecordsOf(a + b) == RecordsOf(a) + RecordsOf(b)
    decreases |a|
  {
    if a != [] {
      assert (a + b)[0] == a[0] && (a + b)[1..] == a[1..] + b;
      RecordsOfAppend(a[1..], b);
    } else {
      assert a + b == b;
    }
  }

  lemma {:induction false} WarningsOfAppend(a: seq<BlockOutcome>, b: seq<BlockOutcome>, first: nat)
    ensures WarningsOf(a + b, first) == WarningsOf(a, first) + WarningsOf(b, first + |a|)
    decreases |a|
  {
    if a != [] {
      assert (a + b)[0] == a[0] && (a + b)[1..] == a[1..] + b;
      WarningsOfAppend(a[1..], b, first + 1);
    } else {
      assert a + b == b;
    }
  }

  /** Parsing a list of blocks is parsing its parts: the records of one part do
      not depend on the blocks of the other. */
  lemma SubtitlesOfAppend(a: seq<string>, b: seq<string>)
    ensures SubtitlesOf(a + b) == SubtitlesOf(a) + SubtitlesOf(b)
  {
    OutcomesOfAppend(a, b);
    RecordsOfAppend(OutcomesOf(a), OutcomesOf(b));
  }

  lemma OutcomesOfSnoc(done: seq<string>, block: string)
    ensures OutcomesOf(done + [block]) == OutcomesOf(done) + [ParseBlock(block)]
  {
    OutcomesOfAppend(done, [block]);
    OutcomesOfSingle(block);
  }

  lemma OutcomesOfSingle(block: string)
    ensures OutcomesOf([block]) == [ParseBlock(block)]
  {
    assert [block][1..] == [];
  }

  lemma RecordsOfSnoc(outcomes: seq<BlockOutcome>, o: BlockOutcome)
    ensures RecordsOf(outcomes + [o]) == RecordsOf(outcomes) + (if o.Parsed? then [o.sub] else [])
  {
    RecordsOfAppend(outcomes, [o]);
    assert [o][1..] == [];
  }

  lemma WarningsOfSnoc(outcomes: seq<BlockOutcome>, o: BlockOutcome, first: nat)
    ensures WarningsOf(outcomes + [o], first)
         == WarningsOf(outcomes, first) + (if o.Malformed? then [BlockSkipped(first + |outcomes|, o.why)] else [])
  {
    WarningsOfAppend(outcomes, [o], first);
    assert [o][1..] == [];
  }

  /** A malformed or blank block contributes no record: dropping it leaves
      exactly the records of the blocks around it. */
  lemma SkippedBlockDropsOut(a: seq<string>, block: string, b: seq<string>)
    requires !ParseBlock(block).Parsed?
    ensures SubtitlesOf(a + [block] + b) == SubtitlesOf(a) + SubtitlesOf(b)
  {
    SubtitlesOfAppend(a + [block], b);
    OutcomesOfSnoc(a, block);
    RecordsOfSnoc(OutcomesOf(a), ParseBlock(block));
  }

  /** The parsing loop of `parse` over the decoded text: records in block order
      and one warning per skipped block, numbered from 1. */
  method ParseBlocks(blocks: seq<string>) returns (subs: seq<Subtitle>, log: seq<LogEvent>)
    ensures subs == SubtitlesOf(blocks)
    ensures log == WarningsOf(OutcomesOf(blocks), 1)
  {
    subs, log := [], [];
    ghost var outcomes: seq<BlockOutcome> := [];
    var blockNum := 0;
    while blockNum < |blocks|
      invariant 0 <= blockNum <= |blocks|
      invariant outcomes == OutcomesOf(blocks[..blockNum])
      invariant subs == RecordsOf(outcomes)
      invariant log == WarningsOf(outcomes, 1)
    {
      var block := blocks[blockNum];
      var outcome := ParseBlock(block);
      RecordsOfSnoc(outcomes, outcome);
      WarningsOfSnoc(outcomes, outcome, 1);
      assert blocks[..blockNum + 1] == blocks[..blockNum] + [block];
      OutcomesOfSnoc(blocks[..blockNum], block);
      outcomes := outcomes + [outcome];
      blockNum := blockNum + 1;
      if outcome.Malformed? {
        log := log + [BlockSkipped(blockNum, outcome.why)];
      } else if outcome.Parsed? {
        subs := subs + [outcome.sub];
      }
    }
    assert blocks[..|blocks|] == blocks;
  }

  method ParseText(text: string) returns (subs: seq<Subtitle>, log: seq<LogEvent>)
    ensures subs == SubtitlesOf(BlocksOf(text))
    ensures log == WarningsOf(OutcomesOf(BlocksOf(text)), 1)
  {
    var normalized := ReplaceAll(text, "\r\n", "\n");
    var blocks := Split(PyStrip(normalized), "\n\n");
    subs, log := ParseBlocks(blocks);
  }

  // ---------------------------------------------------------------------
  // Encoding fallback
  // ---------------------------------------------------------------------

  datatype Encoding = Utf8 | Utf8Sig | Cp1252 | Latin1 | Cp1251

  /** The encodings `parse` tries, in order. */
  const EncodingsToTry: seq<Encoding> := [Utf8, Utf8Sig, Cp1252, Latin1, Cp1251]

  /** What opening and reading the file under one encoding does. */
  datatype ReadOutcome =
    | Decoded(text: string)   // the whole file decodes
    | UndecodableAs           // `UnicodeDecodeError`: the next encoding is tried
    | Vanished                // `FileNotFoundError` while reading: re-raised
    | ReadFailed              // any other error: raised as `IOError`

  datatype ParseError = FileNotFound | ReadError(encoding: Encoding) | NoEncodingFits

  /** The position in `EncodingsToTry` of the first encoding whose read does not
      fail to decode, or `|EncodingsToTry|` when every one fails. */
  function FirstSettledRead(read: Encoding -> ReadOutcome, from: nat): (k: nat)
    requires from <= |EncodingsToTry|
    ensures from <= k <= |EncodingsToTry|
    ensures forall j :: from <= j < k ==> read(EncodingsToTry[j]).UndecodableAs?
    ensures k < |EncodingsToTry| ==> !read(EncodingsToTry[k]).UndecodableAs?
    decreases |EncodingsToTry| - from
  {
    if from == |EncodingsToTry| || !read(EncodingsToTry[from]).UndecodableAs? then from
    else FirstSettledRead(read, from + 1)
  }

  /** What the encoding loop of `parse` ends with. */
  function SelectEncoding(read: Encoding -> ReadOutcome): Result<(Encoding, string), ParseError> {
    var k := FirstSettledRead(read, 0);
    if k == |EncodingsToTry| then Err(NoEncodingFits)
    else
      var enc := EncodingsToTry[k];
      match read(enc)
      case Decoded(text) => Ok((enc, text))
      case Vanished => Err(FileNotFound)
      case _ => Err(ReadError(enc))
  }

  /** The log of the encoding loop: a failure line per encoding tried in vain,
      then a success line for the one adopted. */
  function EncodingLog(read: Encoding -> ReadOutcome): seq<LogEvent> {
    var k := FirstSettledRead(read, 0);
    seq(k, j requires 0 <= j < k => DecodeFailed(EncodingsToTry[j]))
    + (if k < |EncodingsToTry| && read(EncodingsToTry[k]).Decoded? then [DecodeSucceeded(EncodingsToTry[k])] else [])
  }

  /** The list names every encoding the model knows. */
  lemma EveryEncodingIsTried(e: Encoding)
    ensures e in EncodingsToTry
  {
    match e
    case Utf8 => assert EncodingsToTry[0] == e;
    case Utf8Sig => assert EncodingsToTry[1] == e;
    case Cp1252 => assert EncodingsToTry[2] == e;
    case Latin1 => assert EncodingsToTry[3] == e;
    case Cp1251 => assert EncodingsToTry[4] == e;
  }

  /** With the real Latin-1 codec every byte sequence decodes, so the loop
      never runs out of encodings and `NoEncodingFits` cannot happen. */
  lemma Latin1ClosesTheSearch(read: Encoding -> ReadOutcome)
    requires read(Latin1).Decoded?
    ensures FirstSettledRead(read, 0) <= 3
    ensures SelectEncoding(read) != Err(NoEncodingFits)
  {
    assert EncodingsToTry[3] == Latin1;
  }

  /** The encoding loop of `parse`: the first encoding of the list that decodes
      the file is adopted, each earlier one is logged as a failure, and when
      none decodes the result is the "could not decode" `ValueError`. */
  method DetectEncoding(read: Encoding -> ReadOutcome)
    returns (r: Result<(Encoding, string), ParseError>, log: seq<LogEvent>)
    ensures r == SelectEncoding(read)
    ensures log == EncodingLog(read)
    ensures r.Ok? ==> read(r.value.0) == Decoded(r.value.1)
    ensures r.Ok? ==> forall j :: 0 <= j < |EncodingsToTry| && EncodingsToTry[j] == r.value.0 ==>
                        forall i :: 0 <= i < j ==> read(EncodingsToTry[i]) == UndecodableAs
    ensures r == Err(NoEncodingFits) <==> forall e :: read(e) == UndecodableAs
  {
    log := [];
    var i := 0;
    while i < |EncodingsToTry|
      invariant 0 <= i <= FirstSettledRead(read, 0)
      invariant log == seq(i, j requires 0 <= j < i => DecodeFailed(EncodingsToTry[j]))
      decreases |EncodingsToTry| - i
    {
      var enc := EncodingsToTry[i];
      match read(enc) {
        case Decoded(text) =>
          log := log + [DecodeSucceeded(enc)];
          r := Ok((enc, text));
          return;
        case UndecodableAs =>
          log := log + [DecodeFailed(enc)];
        case Vanished =>
          r := Err(FileNotFound);
          return;
        case ReadFailed =>
          r := Err(ReadError(enc));
          return;
      }
      i := i + 1;
    }
    forall e: Encoding ensures read(e) == UndecodableAs {
      EveryEncodingIsTried(e);
    }
    r := Err(NoEncodingFits);
  }

  /** `NativeSrtParser.parse` with the file system as parameters: a missing file,
      then the encoding loop, then the parsing loop over the adopted text. */
  method Parse(fileExists: bool, read: Encoding -> ReadOutcome)
    returns (r: Result<seq<Subtitle>, ParseError>, log: seq<LogEvent>)
    ensures !fileExists ==> r == Err(FileNotFound) && log == []
    ensures fileExists ==> match SelectEncoding(read)
      case Err(e) => r == Err(e) && log == EncodingLog(read)
      case Ok((_, text)) =>
        r == Ok(SubtitlesOf(BlocksOf(text))) && log == EncodingLog(read) + WarningsOf(OutcomesOf(BlocksOf(text)), 1)
  {
    if !fileExists {
      return Err(FileNotFound), [];
    }
    var decoded;
    decoded, log := DetectEncoding(read);
    match decoded
    case Err(e) =>
      r := Err(e);
    case Ok((_, text)) =>
      var subs, warnings := ParseText(text);
      r := Ok(subs);
      log := log + warnings;
  }
}
