/**
  What `NativeSrtParser.compose` writes, `NativeSrtParser.parse` reads back:
  for records of the shape the parser itself produces, parsing the composed
  text gives back exactly the same records, in the same order, with no
  warning.
*/
module SrtRoundTrip {
  import opened Wrappers
  import opened Strings
  import opened SrtCodec

  /** A record the writer and the reader agree on: two well-formed times, and a
      non-empty body without surrounding whitespace that holds no blank line
      and no CR LF pair (the reader turns each of those into a block boundary
      or a bare LF). Every record the reader produces has the first three. */
  predicate Composable(sub: Subtitle) {
    && IsTimestamp(sub.startTime) && IsTimestamp(sub.endTime)
    && sub.content != [] && IsTrimmed(sub.content, IsPySpace)
    && NoPair(sub.content, '\n', '\n') && NoPair(sub.content, '\r', '\n')
  }

  /** The timing line of a record. */
  function TimingLine(sub: Subtitle): string {
    sub.startTime + " --> " + sub.endTime
  }

  /** A record's text without its final newline: the block the reader cuts out. */
  function Block(sub: Subtitle): string {
    IntToString(sub.index) + "\n" + TimingLine(sub) + "\n" + sub.content
  }

  function Blocks(subs: seq<Subtitle>): (r: seq<string>)
    ensures |r| == |subs|
    ensures forall i :: 0 <= i < |subs| ==> r[i] == Block(subs[i])
  {
    seq(|subs|, i requires 0 <= i < |subs| => Block(subs[i]))
  }

  /** The composed text is the blocks joined by blank lines, plus a final newline. */
  lemma {:induction false} ComposedIsJoin(subs: seq<Subtitle>)
    requires |subs| >= 1
    ensures Composed(subs) == Join(Blocks(subs), "\n\n") + "\n"
    decreases |subs|
  {
    TextIsBlock(subs[0]);
    if |subs| >= 2 {
      ComposedIsJoin(subs[1..]);
      BlocksCons(subs);
      JoinCons(Block(subs[0]), Blocks(subs[1..]), "\n\n");
      NewlineSeam(Block(subs[0]), Join(Blocks(subs[1..]), "\n\n"));
    } else {
      assert Blocks(subs) == [Block(subs[0])];
    }
  }

  /** A record's text is its block and a newline. */
  lemma TextIsBlock(sub: Subtitle)
    ensures SubtitleText(sub) == Block(sub) + "\n"
  {
  }

  lemma BlocksCons(subs: seq<Subtitle>)
    requires |subs| >= 1
    ensures Blocks(subs) == [Block(subs[0])] + Blocks(subs[1..])
  {
    var all, rest := Blocks(subs), Blocks(subs[1..]);
    forall i | 0 <= i < |rest|
      ensures all[i + 1] == rest[i]
    {
      assert subs[1..][i] == subs[i + 1];
    }
    ConsOfShifted(all, rest);
  }

  lemma ConsOfShifted(all: seq<string>, rest: seq<string>)
    requires |all| == |rest| + 1
    requires forall i :: 0 <= i < |rest| ==> all[i + 1] == rest[i]
    ensures all == [all[0]] + rest
  {
    assert all[1..] == rest;
  }

  lemma NewlineSeam(a: string, j: string)
    ensures a + "\n" + "\n" + (j + "\n") == a + "\n\n" + j + "\n"
  {
  }

  // ---------------------------------------------------------------------
  // Characters of a block
  // ---------------------------------------------------------------------

  lemma TimestampChars(t: string, c: char)
    requires IsTimestamp(t) && !IsDigit(c) && c != ':' && c != ','
    ensures c !in t
  {
  }

  lemma NumeralChars(n: int, c: char)
    requires !IsDigit(c) && c != '-'
    ensures c !in IntToString(n)
  {
  }

  /** A line break is only ever preceded, inside a block and at its end, by a
      digit or by the end of the body, so neither a blank line nor a CR LF pair
      appears where the writer put none. */
  lemma BlockNoPair(sub: Subtitle, a: char)
    requires Composable(sub)
    requires a == '\n' || a == '\r'
    ensures NoPair(Block(sub) + "\n", a, '\n')
  {
    var number := IntToString(sub.index);
    NumeralChars(sub.index, a);
    NoPairWithout(number, a, '\n');
    TimestampChars(sub.startTime, a);
    NoPairWithout(sub.startTime, a, '\n');
    TimestampChars(sub.endTime, a);
    NoPairWithout(sub.endTime, a, '\n');
    NoPairWithout(" --> ", a, '\n');
    var x1 := number + "\n";
    NoPairConcat(number, "\n", a, '\n');
    var x2 := x1 + sub.startTime;
    NoPairConcat(x1, sub.startTime, a, '\n');
    var x3 := x2 + " --> ";
    NoPairConcat(x2, " --> ", a, '\n');
    var x4 := x3 + sub.endTime;
    NoPairConcat(x3, sub.endTime, a, '\n');
    var x5 := x4 + "\n";
    NoPairConcat(x4, "\n", a, '\n');
    var x6 := x5 + sub.content;
    NoPairConcat(x5, sub.content, a, '\n');
    NoPairConcat(x6, "\n", a, '\n');
    assert Block(sub) == x6;
  }

  // ---------------------------------------------------------------------
  // One block
  // ---------------------------------------------------------------------

  /** The timing line the writer produces is matched, with both times recovered. */
  lemma MatchTimingLine(sub: Subtitle)
    requires IsTimestamp(sub.startTime) && IsTimestamp(sub.endTime)
    ensures MatchTimestamps(TimingLine(sub)) == Some((sub.startTime, sub.endTime))
  {
    var line := TimingLine(sub);
    assert line[..12] == sub.startTime;
    assert line[12..] == " " + ("-->" + " " + sub.endTime);
    TrimStartSkips(" ", "-->" + " " + sub.endTime, IsPySpace);
    var afterStart := "-->" + " " + sub.endTime;
    assert afterStart[..3] == "-->";
    assert afterStart[3..] == " " + sub.endTime;
    TrimStartSkips(" ", sub.endTime, IsPySpace);
    assert sub.endTime[..12] == sub.endTime;
  }

  /** The number line the writer produces reads back as the same index. */
  lemma IndexLine(n: int)
    ensures PyInt(TrimStart(IntToString(n), IsByteOrderMark)) == Some(n)
  {
    var number := IntToString(n);
    TrimStartSkips([], number, IsByteOrderMark);
    PyIntOfIntToString(n);
  }

  /** A block the writer produces has no surrounding whitespace to strip. */
  lemma BlockIsStripped(sub: Subtitle)
    requires Composable(sub)
    ensures Block(sub) != [] && IsTrimmed(Block(sub), IsPySpace)
  {
    var number := IntToString(sub.index);
    var block := Block(sub);
    NumeralCharNotSpace(number[0]);
    assert block[0] == number[0];
    assert block[|block| - 1] == sub.content[|sub.content| - 1];
  }

  /** The text `Subtitle.__str__` gives a record reads back, as a block of its
      own, as that record: `parse` strips the final newline. */
  lemma SubtitleTextReadsBack(sub: Subtitle)
    requires Composable(sub)
    ensures ParseBlock(SubtitleText(sub)) == Parsed(sub)
  {
    TextIsBlock(sub);
    BlockIsStripped(sub);
    TrimDropsTrailing(Block(sub), "\n", IsPySpace);
    TrimOfTrimmed(Block(sub), IsPySpace);
    ParseBlockOfBlock(sub);
  }

  /** The lines of a block the writer produces: the number, the timing line,
      then the lines of the body. */
  lemma BlockLines(sub: Subtitle)
    requires IsTimestamp(sub.startTime) && IsTimestamp(sub.endTime)
    ensures Split(Block(sub), "\n") == [IntToString(sub.index), TimingLine(sub)] + Split(sub.content, "\n")
  {
    NumeralChars(sub.index, '\n');
    TimestampChars(sub.startTime, '\n');
    TimestampChars(sub.endTime, '\n');
    SplitTwoLines(IntToString(sub.index), TimingLine(sub), sub.content);
  }

  /** The lines the writer produces for a record are read back as that record. */
  lemma ParseLinesOfRecord(sub: Subtitle)
    requires Composable(sub)
    ensures ParseLines([IntToString(sub.index), TimingLine(sub)] + Split(sub.content, "\n")) == Parsed(sub)
  {
    var lines := [IntToString(sub.index), TimingLine(sub)] + Split(sub.content, "\n");
    assert lines[2..] == Split(sub.content, "\n");
    IndexLine(sub.index);
    MatchTimingLine(sub);
    JoinSplit(sub.content, "\n");
    TrimOfTrimmed(sub.content, IsPySpace);
  }

  /** Each block the writer produces parses back into its record. */
  lemma ParseBlockOfBlock(sub: Subtitle)
    requires Composable(sub)
    ensures ParseBlock(Block(sub)) == Parsed(sub)
  {
    BlockIsStripped(sub);
    TrimOfTrimmed(Block(sub), IsPySpace);
    BlockLines(sub);
    ParseLinesOfRecord(sub);
  }

  lemma SubtitlesOfBlocks(subs: seq<Subtitle>)
    requires forall i :: 0 <= i < |subs| ==> Composable(subs[i])
    ensures OutcomesOf(Blocks(subs)) == seq(|subs|, i requires 0 <= i < |subs| => Parsed(subs[i]))
  {
    var outcomes := OutcomesOf(Blocks(subs));
    forall i | 0 <= i < |subs|
      ensures outcomes[i] == Parsed(subs[i])
    {
      OutcomeAt(Blocks(subs), i);
      ParseBlockOfBlock(subs[i]);
    }
  }

  lemma {:induction false} RecordsOfParsed(subs: seq<Subtitle>, first: nat)
    ensures RecordsOf(seq(|subs|, i requires 0 <= i < |subs| => Parsed(subs[i]))) == subs
    ensures WarningsOf(seq(|subs|, i requires 0 <= i < |subs| => Parsed(subs[i])), first) == []
    decreases |subs|
  {
    var outcomes := seq(|subs|, i requires 0 <= i < |subs| => Parsed(subs[i]));
    if subs != [] {
      RecordsOfParsed(subs[1..], first + 1);
      assert outcomes[1..] == seq(|subs| - 1, i requires 0 <= i < |subs| - 1 => Parsed(subs[1..][i]));
      assert [subs[0]] + subs[1..] == subs;
    }
  }

  // ---------------------------------------------------------------------
  // The whole text
  // ---------------------------------------------------------------------

  /** The written text holds no CR LF pair, so line-ending normalisation leaves it alone. */
  lemma JoinedKeepsLineEndings(subs: seq<Subtitle>)
    requires |subs| >= 1
    requires forall i :: 0 <= i < |subs| ==> Composable(subs[i])
    ensures ReplaceAll(Join(Blocks(subs), "\n\n") + "\n", "\r\n", "\n") == Join(Blocks(subs), "\n\n") + "\n"
  {
    var blocks := Blocks(subs);
    forall i | 0 <= i < |blocks|
      ensures NoPair(blocks[i], '\r', '\n')
      ensures blocks[i] == [] || blocks[i][|blocks[i]| - 1] != '\r'
      ensures blocks[i] != [] && IsTrimmed(blocks[i], IsPySpace)
    {
      BlockSeams(subs[i]);
    }
    NoPairJoin(blocks, "\n\n", '\r', '\n');
    JoinTrimmed(blocks, "\n\n", IsPySpace);
    NoPairConcat(Join(blocks, "\n\n"), "\n", '\r', '\n');
    assert "\r\n" == ['\r', '\n'];
    ReplaceAbsentPair(Join(blocks, "\n\n") + "\n", '\r', '\n', "\n");
  }

  /** Stripping the written text removes only its final newline. */
  lemma StripJoined(subs: seq<Subtitle>)
    requires |subs| >= 1
    requires forall i :: 0 <= i < |subs| ==> Composable(subs[i])
    ensures PyStrip(Join(Blocks(subs), "\n\n") + "\n") == Join(Blocks(subs), "\n\n")
  {
    var blocks := Blocks(subs);
    forall i | 0 <= i < |blocks|
      ensures blocks[i] != [] && IsTrimmed(blocks[i], IsPySpace)
    {
      BlockSeams(subs[i]);
    }
    JoinTrimmed(blocks, "\n\n", IsPySpace);
    TrimDropsTrailing(Join(blocks, "\n\n"), "\n", IsPySpace);
  }

  /** Splitting the joined blocks at blank lines gives them back. */
  lemma SplitBlocks(subs: seq<Subtitle>)
    requires |subs| >= 1
    requires forall i :: 0 <= i < |subs| ==> Composable(subs[i])
    ensures Split(Join(Blocks(subs), "\n\n"), "\n\n") == Blocks(subs)
  {
    var blocks := Blocks(subs);
    forall i | 0 <= i < |blocks|
      ensures NoOccurrence(blocks[i] + "\n\n"[..1], "\n\n")
    {
      BlockSeams(subs[i]);
    }
    SplitJoin(blocks, "\n\n");
  }

  /** Reading cuts the composed text back into the writer's blocks. */
  lemma BlocksOfComposed(subs: seq<Subtitle>)
    requires |subs| >= 1
    requires forall i :: 0 <= i < |subs| ==> Composable(subs[i])
    ensures BlocksOf(Composed(subs)) == Blocks(subs)
  {
    ComposedIsJoin(subs);
    JoinedKeepsLineEndings(subs);
    StripJoined(subs);
    SplitBlocks(subs);
  }

  /** What the joins around a block rely on: no CR LF pair inside it, no CR
      at its end, no blank line inside it or at its end, nothing to strip. */
  lemma BlockSeams(sub: Subtitle)
    requires Composable(sub)
    ensures NoPair(Block(sub), '\r', '\n') && Block(sub)[|Block(sub)| - 1] != '\r'
    ensures NoOccurrence(Block(sub) + "\n\n"[..1], "\n\n")
    ensures Block(sub) != [] && IsTrimmed(Block(sub), IsPySpace)
  {
    var block := Block(sub);
    BlockIsStripped(sub);
    BlockNoPair(sub, '\r');
    NoPairPrefix(block, "\n", '\r', '\n');
    BlockNoPair(sub, '\n');
    NoPairIsNoOccurrence(block + "\n", '\n', '\n');
    assert "\n\n"[..1] == "\n";
  }

  lemma NoPairPrefix(x: string, y: string, a: char, b: char)
    requires NoPair(x + y, a, b)
    ensures NoPair(x, a, b)
  {
    forall j | 0 <= j < |x| - 1
      ensures !(x[j] == a && x[j + 1] == b)
    {
      assert (x + y)[j] == x[j] && (x + y)[j + 1] == x[j + 1];
    }
  }

  /** An empty file holds one blank block, hence no record and no warning. */
  lemma EmptyText()
    ensures OutcomesOf(BlocksOf("")) == [Blank]
  {
    assert ReplaceAll("", "\r\n", "\n") == "";
    assert PyStrip("") == "";
    assert Split("", "\n\n") == [""];
    BlankBlock("");
    OutcomesOfSingle("");
  }

  /** Parsing what `compose` wrote gives back the records, in order, without a
      single warning; an empty list is written as an empty file and read back
      as no records. */
  lemma ParseComposed(subs: seq<Subtitle>)
    requires forall i :: 0 <= i < |subs| ==> Composable(subs[i])
    ensures SubtitlesOf(BlocksOf(Composed(subs))) == subs
    ensures WarningsOf(OutcomesOf(BlocksOf(Composed(subs))), 1) == []
  {
    if subs == [] {
      EmptyText();
      BlankYieldsNothing();
    } else {
      ParseComposedBlocks(subs);
    }
  }

  /** The blank block of an empty file yields neither a record nor a warning. */
  lemma BlankYieldsNothing()
    ensures RecordsOf([Blank]) == [] && WarningsOf([Blank], 1) == []
  {
    assert [Blank][1..] == [];
  }

  lemma ParseComposedBlocks(subs: seq<Subtitle>)
    requires |subs| >= 1
    requires forall i :: 0 <= i < |subs| ==> Composable(subs[i])
    ensures SubtitlesOf(BlocksOf(Composed(subs))) == subs
    ensures WarningsOf(OutcomesOf(BlocksOf(Composed(subs))), 1) == []
  {
    var blocks := BlocksOf(Composed(subs));
    BlocksOfComposed(subs);
    assert blocks == Blocks(subs);
    SubtitlesOfBlocks(subs);
    RecordsOfParsed(subs, 1);
  }
}
