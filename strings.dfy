/**
  The string built-ins the translator relies on, written out: `str.strip`,
  `str.split`, `str.join`, `str.replace`, `str(int)` and `int(str)` on the
  Python side, `trim`, `split`, `join` and `replace` on the JavaScript side.
  Strings are sequences of Unicode scalar values.
*/
module Strings {
  import opened Wrappers

  // ---------------------------------------------------------------------
  // Whitespace
  // ---------------------------------------------------------------------

  /** Python's `str.isspace()`: what `str.strip()` removes and what `\s` matches in a `str` regex. */
  predicate IsPySpace(c: char) {
    || c == ' '
    || '\t' <= c <= '\r'
    || '\U{1c}' <= c <= '\U{1f}'
    || c == '\U{85}' || c == '\U{a0}' || c == '\U{1680}'
    || '\U{2000}' <= c <= '\U{200a}'
    || c == '\U{2028}' || c == '\U{2029}' || c == '\U{202f}' || c == '\U{205f}' || c == '\U{3000}'
  }

  /** ECMAScript WhiteSpace and LineTerminator: what `String.prototype.trim` removes and `parseInt` skips. */
  predicate IsJsSpace(c: char) {
    || c == ' '
    || '\t' <= c <= '\r'
    || c == '\U{a0}' || c == '\U{1680}'
    || '\U{2000}' <= c <= '\U{200a}'
    || c == '\U{2028}' || c == '\U{2029}' || c == '\U{202f}' || c == '\U{205f}' || c == '\U{3000}'
    || c == '\U{feff}'
  }

  /** `s` neither starts nor ends with a character of `ws`. */
  predicate IsTrimmed(s: string, ws: char -> bool) {
    s == [] || (!ws(s[0]) && !ws(s[|s| - 1]))
  }

  /** Removes the leading characters that satisfy `ws`. */
  function TrimStart(s: string, ws: char -> bool): (r: string)
    ensures |r| <= |s| && r == s[|s| - |r|..]
    ensures forall i :: 0 <= i < |s| - |r| ==> ws(s[i])
    ensures r == [] || !ws(r[0])
  {
    if s != [] && ws(s[0]) then
      var r := TrimStart(s[1..], ws);
      assert forall i :: 1 <= i < |s| ==> s[i] == s[1..][i - 1];
      r
    else s
  }

  /** Removes the trailing characters that satisfy `ws`. */
  function TrimEnd(s: string, ws: char -> bool): (r: string)
    ensures |r| <= |s| && r == s[..|r|]
    ensures forall i :: |r| <= i < |s| ==> ws(s[i])
    ensures r == [] || !ws(r[|r| - 1])
  {
    if s != [] && ws(s[|s| - 1]) then TrimEnd(s[..|s| - 1], ws) else s
  }

  /** Removes whitespace at both ends: the result is trimmed, no longer than `s`,
      and empty exactly when `s` holds nothing but whitespace. */
  function Trim(s: string, ws: char -> bool): (r: string)
    ensures IsTrimmed(r, ws) && |r| <= |s|
    ensures r == [] <==> forall i :: 0 <= i < |s| ==> ws(s[i])
  {
    TrimEnd(TrimStart(s, ws), ws)
  }

  /** Python `s.strip()`. */
  function PyStrip(s: string): string {
    Trim(s, IsPySpace)
  }

  /** JavaScript `s.trim()`. */
  function JsTrim(s: string): string {
    Trim(s, IsJsSpace)
  }

  lemma TrimOfTrimmed(s: string, ws: char -> bool)
    requires IsTrimmed(s, ws)
    ensures Trim(s, ws) == s
  {
  }

  /** Whitespace after a trimmed, non-empty text is cut away, and nothing else. */
  lemma TrimDropsTrailing(s: string, tail: string, ws: char -> bool)
    requires s != [] && IsTrimmed(s, ws)
    requires forall i :: 0 <= i < |tail| ==> ws(tail[i])
    ensures Trim(s + tail, ws) == s
  {
    var t := TrimStart(s + tail, ws);
    assert t == s + tail;
    assert !ws(t[|s| - 1]);
    assert forall i :: |s| <= i < |t| ==> ws(t[i]) by {
      forall i | |s| <= i < |t| ensures ws(t[i]) {
        assert t[i] == tail[i - |s|];
      }
    }
  }

  // ---------------------------------------------------------------------
  // Occurrences, split, join and replace
  // ---------------------------------------------------------------------

  /** `pat` occurs in `s` at position `j`. */
  predicate OccursAt(s: string, pat: string, j: int) {
    0 <= j && j + |pat| <= |s| && s[j..j + |pat|] == pat
  }

  /** `pat` does not occur anywhere in `s`. */
  predicate NoOccurrence(s: string, pat: string) {
    forall j | 0 <= j <= |s| - |pat| :: !OccursAt(s, pat, j)
  }

  /** No character `a` in `s` is directly followed by a character `b`. */
  predicate NoPair(s: string, a: char, b: char) {
    forall j :: 0 <= j < |s| - 1 ==> !(s[j] == a && s[j + 1] == b)
  }

  /** `s` contains `pat` (JavaScript `s.includes(pat)`). */
  predicate Contains(s: string, pat: string) {
    exists j | 0 <= j <= |s| - |pat| :: OccursAt(s, pat, j)
  }

  lemma OccursShift(s: string, pat: string, j: nat)
    requires |s| > 0
    ensures OccursAt(s, pat, j + 1) <==> OccursAt(s[1..], pat, j)
  {
    if j + 1 + |pat| <= |s| {
      assert s[j + 1..j + 1 + |pat|] == s[1..][j..j + |pat|];
    }
  }

  /** The position of the leftmost occurrence of `pat` in `s`, or `|s|` when there is none. */
  function IndexOf(s: string, pat: string): (r: nat)
    requires |pat| > 0
    ensures r <= |s|
    ensures r < |s| ==> OccursAt(s, pat, r)
    ensures forall j :: j < r ==> !OccursAt(s, pat, j)
    decreases |s|
  {
    if |s| < |pat| then |s|
    else if s[..|pat|] == pat then 0
    else
      var r' := IndexOf(s[1..], pat);
      assert forall j :: !OccursAt(s[1..], pat, j) ==> !OccursAt(s, pat, j + 1) by {
        forall j ensures !OccursAt(s[1..], pat, j) ==> !OccursAt(s, pat, j + 1) {
          if j >= 0 { OccursShift(s, pat, j); }
        }
      }
      assert forall j :: j < 1 + r' ==> !OccursAt(s, pat, j) by {
        forall j | j < 1 + r' ensures !OccursAt(s, pat, j) {
          if j >= 1 { OccursShift(s, pat, j - 1); }
        }
      }
      assert r' < |s| - 1 ==> OccursAt(s, pat, 1 + r') by {
        OccursShift(s, pat, r');
      }
      1 + r'
  }

  /** Python `s.split(sep)` and JavaScript `s.split(sep)` for a non-empty string separator:
      the pieces between leftmost, non-overlapping occurrences of `sep`. */
  function Split(s: string, sep: string): (r: seq<string>)
    requires |sep| > 0
    ensures |r| >= 1
    decreases |s|
  {
    var i := IndexOf(s, sep);
    if i == |s| then [s] else [s[..i]] + Split(s[i + |sep|..], sep)
  }

  /** Python `sep.join(parts)` and JavaScript `parts.join(sep)`. */
  function Join(parts: seq<string>, sep: string): string {
    if |parts| == 0 then ""
    else if |parts| == 1 then parts[0]
    else parts[0] + sep + Join(parts[1..], sep)
  }

  /** Python `s.replace(pat, rep)` and JavaScript `s.replace(/pat/g, rep)`:
      leftmost, non-overlapping occurrences replaced from left to right. */
  function ReplaceAll(s: string, pat: string, rep: string): string
    requires |pat| > 0
    decreases |s|
  {
    if |s| < |pat| then s
    else if s[..|pat|] == pat then rep + ReplaceAll(s[|pat|..], pat, rep)
    else [s[0]] + ReplaceAll(s[1..], pat, rep)
  }

  /** Joining the pieces of a split with the same separator gives back the text. */
  lemma {:induction false} JoinSplit(s: string, sep: string)
    requires |sep| > 0
    ensures Join(Split(s, sep), sep) == s
    decreases |s|
  {
    var i := IndexOf(s, sep);
    if i < |s| {
      var rest := s[i + |sep|..];
      JoinSplit(rest, sep);
      JoinCons(s[..i], Split(rest, sep), sep);
      SplitAround(s, sep, i);
    }
  }

  lemma JoinCons(p: string, parts: seq<string>, sep: string)
    requires |parts| >= 1
    ensures Join([p] + parts, sep) == p + sep + Join(parts, sep)
  {
  }

  /** A join of three or more parts is the first two, each followed by the
      separator, then the join of the rest. */
  lemma JoinFirstTwo(parts: seq<string>, sep: string)
    requires |parts| >= 3
    ensures Join(parts, sep) == parts[0] + sep + parts[1] + sep + Join(parts[2..], sep)
  {
    assert parts == [parts[0]] + parts[1..];
    assert parts[1..] == [parts[1]] + parts[2..];
    JoinCons(parts[0], parts[1..], sep);
    JoinCons(parts[1], parts[2..], sep);
  }

  /** A text of three or more lines is its first two lines, each followed by a
      line break, then the rest. */
  lemma LinesOfText(t: string)
    requires |Split(t, "\n")| >= 3
    ensures var lines := Split(t, "\n");
      t == lines[0] + "\n" + lines[1] + "\n" + Join(lines[2..], "\n")
  {
    JoinSplit(t, "\n");
    JoinFirstTwo(Split(t, "\n"), "\n");
  }

  /** What follows a line break inside a trimmed text is not empty and ends
      the text, when a line break counts as whitespace. */
  lemma TrimmedTail(t: string, head: string, text: string, ws: char -> bool)
    requires IsTrimmed(t, ws) && t == head + text && ws('\n')
    requires head != [] && head[|head| - 1] == '\n'
    ensures text != [] && !ws(text[|text| - 1])
  {
  }

  /** Two lines without breaks, each followed by a line break, are the first
      two pieces of the split. */
  lemma SplitTwoLines(first: string, second: string, rest: string)
    requires '\n' !in first && '\n' !in second
    ensures Split(first + "\n" + second + "\n" + rest, "\n") == [first, second] + Split(rest, "\n")
  {
    var tail := second + "\n" + rest;
    SplitLineAfter(second, rest);
    SplitLineAfter(first, tail);
    LinesRegroup(first, second, rest);
    ConsTwo(first, second, Split(rest, "\n"));
  }

  lemma LinesRegroup(first: string, second: string, rest: string)
    ensures first + "\n" + second + "\n" + rest == first + "\n" + (second + "\n" + rest)
  {
  }

  lemma ConsTwo(first: string, second: string, more: seq<string>)
    ensures [first] + ([second] + more) == [first, second] + more
  {
  }

  /** A line followed by a line break is the first piece of the split. */
  lemma SplitLineAfter(line: string, rest: string)
    requires '\n' !in line
    ensures Split(line + "\n" + rest, "\n") == [line] + Split(rest, "\n")
  {
    NoOccurrenceOfChar(line, '\n');
    assert line + "\n"[..0] == line;
    SplitAfter(line, "\n", rest);
  }

  lemma SplitAround(s: string, sep: string, i: nat)
    requires OccursAt(s, sep, i)
    ensures s == s[..i] + sep + s[i + |sep|..]
  {
    assert s == s[..i] + s[i..i + |sep|] + s[i + |sep|..];
  }

  /** A text in which the separator does not occur splits into itself alone. */
  lemma SplitWithout(s: string, sep: string)
    requires |sep| > 0 && NoOccurrence(s, sep)
    ensures Split(s, sep) == [s]
  {
  }

  /** Splitting `a + sep + rest`, where no occurrence of `sep` starts inside `a`,
      gives `a` first and then the pieces of `rest`. */
  lemma SplitAfter(a: string, sep: string, rest: string)
    requires |sep| > 0 && NoOccurrence(a + sep[..|sep| - 1], sep)
    ensures Split(a + sep + rest, sep) == [a] + Split(rest, sep)
  {
    var s := a + sep + rest;
    var p := a + sep[..|sep| - 1];
    assert OccursAt(s, sep, |a|) by {
      assert s[|a|..|a| + |sep|] == sep;
    }
    forall j | j < |a|
      ensures !OccursAt(s, sep, j)
    {
      if 0 <= j {
        assert s[j..j + |sep|] == p[j..j + |sep|];
        assert !OccursAt(p, sep, j);
      }
    }
    assert IndexOf(s, sep) == |a|;
    assert s[..|a|] == a;
    assert s[|a| + |sep|..] == rest;
  }

  /** For a two-character pattern, "no occurrence" is "no adjacent pair". */
  lemma NoPairIsNoOccurrence(s: string, a: char, b: char)
    requires NoPair(s, a, b)
    ensures NoOccurrence(s, [a, b])
  {
    forall j
      ensures !OccursAt(s, [a, b], j)
    {
      if 0 <= j && j + 2 <= |s| {
        assert !(s[j] == a && s[j + 1] == b);
        assert s[j..j + 2][0] == s[j] && s[j..j + 2][1] == s[j + 1];
      }
    }
  }

  lemma NoPairWithout(s: string, a: char, b: char)
    requires a !in s
    ensures NoPair(s, a, b)
  {
  }

  /** Gluing two pair-free texts creates no pair unless the pair straddles the seam. */
  lemma NoPairConcat(x: string, y: string, a: char, b: char)
    requires NoPair(x, a, b) && NoPair(y, a, b)
    requires x == [] || y == [] || !(x[|x| - 1] == a && y[0] == b)
    ensures NoPair(x + y, a, b)
  {
    var s := x + y;
    forall j | 0 <= j < |s| - 1
      ensures !(s[j] == a && s[j + 1] == b)
    {
      if j + 1 < |x| {
        assert s[j] == x[j] && s[j + 1] == x[j + 1];
      } else if j >= |x| {
        assert s[j] == y[j - |x|] && s[j + 1] == y[j + 1 - |x|];
      }
    }
  }

  /** A join has no pair when its parts and separator have none and no seam makes one. */
  lemma {:induction false} NoPairJoin(parts: seq<string>, sep: string, a: char, b: char)
    requires |sep| > 0 && NoPair(sep, a, b) && sep[|sep| - 1] != a
    requires forall i :: 0 <= i < |parts| ==> NoPair(parts[i], a, b)
    requires forall i :: 0 <= i < |parts| ==> parts[i] == [] || parts[i][|parts[i]| - 1] != a
    ensures NoPair(Join(parts, sep), a, b)
    decreases |parts|
  {
    if |parts| >= 2 {
      NoPairJoin(parts[1..], sep, a, b);
      NoPairConcat(parts[0], sep, a, b);
      NoPairConcat(parts[0] + sep, Join(parts[1..], sep), a, b);
    } else if |parts| == 0 {
      assert Join(parts, sep) == [];
    }
  }

  /** A join of non-empty trimmed parts is non-empty and trimmed. */
  lemma {:induction false} JoinTrimmed(parts: seq<string>, sep: string, ws: char -> bool)
    requires |parts| >= 1
    requires forall i :: 0 <= i < |parts| ==> parts[i] != [] && IsTrimmed(parts[i], ws)
    ensures Join(parts, sep) != [] && IsTrimmed(Join(parts, sep), ws)
    ensures Join(parts, sep)[0] == parts[0][0]
    ensures Join(parts, sep)[|Join(parts, sep)| - 1] == parts[|parts| - 1][|parts[|parts| - 1]| - 1]
    decreases |parts|
  {
    if |parts| >= 2 {
      JoinTrimmed(parts[1..], sep, ws);
      var rest := Join(parts[1..], sep);
      assert Join(parts, sep) == parts[0] + sep + rest;
    }
  }

  /** Splitting a join gives back the parts when no part runs into a separator. */
  lemma {:induction false} SplitJoin(parts: seq<string>, sep: string)
    requires |sep| > 0 && |parts| >= 1
    requires forall i :: 0 <= i < |parts| ==> NoOccurrence(parts[i] + sep[..|sep| - 1], sep)
    ensures Split(Join(parts, sep), sep) == parts
    decreases |parts|
  {
    if |parts| == 1 {
      NoOccurrencePrefix(parts[0], sep[..|sep| - 1], sep);
      SplitWithout(parts[0], sep);
    } else {
      SplitJoin(parts[1..], sep);
      SplitAfter(parts[0], sep, Join(parts[1..], sep));
      assert [parts[0]] + parts[1..] == parts;
    }
  }

  lemma NoOccurrencePrefix(x: string, y: string, pat: string)
    requires NoOccurrence(x + y, pat)
    ensures NoOccurrence(x, pat)
  {
    forall j | 0 <= j <= |x| - |pat|
      ensures !OccursAt(x, pat, j)
    {
      assert (x + y)[j..j + |pat|] == x[j..j + |pat|];
      assert !OccursAt(x + y, pat, j);
    }
  }

  /** A one-character pattern occurs only where that character does. */
  lemma NoOccurrenceOfChar(s: string, c: char)
    requires c !in s
    ensures NoOccurrence(s, [c])
  {
    forall j | 0 <= j <= |s| - 1
      ensures !OccursAt(s, [c], j)
    {
      assert s[j..j + 1][0] == s[j];
    }
  }

  /** A one-character pattern that does not occur is a character that does not occur. */
  lemma CharOfNoOccurrence(s: string, c: char)
    requires NoOccurrence(s, [c])
    ensures c !in s
  {
    forall j | 0 <= j < |s|
      ensures s[j] != c
    {
      assert !OccursAt(s, [c], j);
      assert s[j..j + 1] == [s[j]];
    }
  }

  /** For a two-character pattern, "no adjacent pair" is "no occurrence". */
  lemma NoOccurrenceIsNoPair(s: string, a: char, b: char)
    requires NoOccurrence(s, [a, b])
    ensures NoPair(s, a, b)
  {
    forall j | 0 <= j < |s| - 1
      ensures !(s[j] == a && s[j + 1] == b)
    {
      assert !OccursAt(s, [a, b], j);
      assert s[j..j + 2] == [s[j], s[j + 1]];
    }
  }

  /** A stretch of a pair-free text is pair-free. */
  lemma NoPairSlice(s: string, a: char, b: char, i: nat, j: nat)
    requires i <= j <= |s| && NoPair(s, a, b)
    ensures NoPair(s[i..j], a, b)
  {
    forall k | 0 <= k < j - i - 1
      ensures !(s[i..j][k] == a && s[i..j][k + 1] == b)
    {
      assert s[i..j][k] == s[i + k] && s[i..j][k + 1] == s[i + k + 1];
    }
  }

  /** No piece of a split holds the separator. */
  lemma {:induction false} SplitPieces(s: string, sep: string)
    requires |sep| > 0
    ensures forall k :: 0 <= k < |Split(s, sep)| ==> NoOccurrence(Split(s, sep)[k], sep)
    decreases |s|
  {
    var i := IndexOf(s, sep);
    assert NoOccurrence(s[..i], sep) by {
      forall j | 0 <= j <= i - |sep|
        ensures !OccursAt(s[..i], sep, j)
      {
        assert !OccursAt(s, sep, j);
        assert s[..i][j..j + |sep|] == s[j..j + |sep|];
      }
    }
    if i < |s| {
      SplitPieces(s[i + |sep|..], sep);
    } else {
      assert s[..i] == s;
    }
  }

  /** Trimming the start skips exactly a leading run of `ws` characters. */
  lemma {:induction false} TrimStartSkips(run: string, rest: string, ws: char -> bool)
    requires forall i :: 0 <= i < |run| ==> ws(run[i])
    requires rest == [] || !ws(rest[0])
    ensures TrimStart(run + rest, ws) == rest
    decreases |run|
  {
    if run == [] {
      assert run + rest == rest;
    } else {
      assert (run + rest)[0] == run[0];
      assert (run + rest)[1..] == run[1..] + rest;
      TrimStartSkips(run[1..], rest, ws);
    }
  }

  /** Replacing a two-character pattern that does not occur changes nothing. */
  lemma {:induction false} ReplaceAbsentPair(s: string, a: char, b: char, rep: string)
    requires NoPair(s, a, b)
    ensures ReplaceAll(s, [a, b], rep) == s
    decreases |s|
  {
    if |s| >= 2 {
      assert s[..2] != [a, b] by { assert !(s[0] == a && s[1] == b); }
      ReplaceAbsentPair(s[1..], a, b, rep);
      assert [s[0]] + s[1..] == s;
    }
  }

  // ---------------------------------------------------------------------
  // Decimal integers
  // ---------------------------------------------------------------------

  predicate IsDigit(c: char) {
    '0' <= c <= '9'
  }

  predicate AllDigits(s: string) {
    forall i :: 0 <= i < |s| ==> IsDigit(s[i])
  }

  function DigitChar(d: nat): (c: char)
    requires d < 10
    ensures IsDigit(c)
  {
    ('0' as int + d) as char
  }

  function DigitValue(c: char): (d: nat)
    requires IsDigit(c)
    ensures d < 10 && DigitChar(d) == c
  {
    c as int - '0' as int
  }

  /** The value of a string of decimal digits. */
  function DigitsValue(s: string): nat
    requires AllDigits(s)
  {
    if |s| == 0 then 0 else DigitsValue(s[..|s| - 1]) * 10 + DigitValue(s[|s| - 1])
  }

  /** The shortest decimal numeral of `n`. */
  function NatToString(n: nat): (r: string)
    ensures |r| >= 1 && AllDigits(r)
    ensures r[0] == '0' ==> n == 0
  {
    if n < 10 then [DigitChar(n)] else NatToString(n / 10) + [DigitChar(n % 10)]
  }

  /** Python `str(n)` and JavaScript `${n}` for an integer `n`. */
  function IntToString(n: int): (r: string)
    ensures |r| >= 1 && (IsDigit(r[0]) || r[0] == '-') && IsDigit(r[|r| - 1])
    ensures forall i :: 0 <= i < |r| ==> IsDigit(r[i]) || r[i] == '-'
  {
    if n < 0 then "-" + NatToString(-n) else NatToString(n)
  }

  lemma {:induction false} DigitsValueOfNatToString(n: nat)
    ensures DigitsValue(NatToString(n)) == n
  {
    if n >= 10 {
      var s := NatToString(n);
      assert s[..|s| - 1] == NatToString(n / 10);
      DigitsValueOfNatToString(n / 10);
    }
  }

  /** An optional sign followed by one or more decimal digits, and nothing else. */
  function SignedDecimal(t: string): Option<int> {
    var signed := |t| > 0 && (t[0] == '-' || t[0] == '+');
    var digits := if signed then t[1..] else t;
    if |digits| > 0 && AllDigits(digits) then
      var magnitude: int := DigitsValue(digits);
      Some(if signed && t[0] == '-' then -magnitude else magnitude)
    else
      None
  }

  /** The whitespace `int()` skips around a numeral: ASCII space and `\t` to `\r`,
      and the non-ASCII characters of `str.isspace()`, which CPython turns into
      spaces first. The separators `\x1c` to `\x1f` pass `str.isspace()` but
      make `int()` fail. */
  predicate IsIntSpace(c: char) {
    IsPySpace(c) && !('\U{1c}' <= c <= '\U{1f}')
  }

  /** Python `int(s)` on ASCII numerals: surrounding whitespace, an optional sign,
      then one or more decimal digits; anything else raises `ValueError` (here `None`). */
  function PyInt(s: string): Option<int> {
    SignedDecimal(Trim(s, IsIntSpace))
  }

  /** `int()` fails on a numeral followed by a character that `str.strip()`
      would remove but `int()` does not skip. */
  lemma IntRefusesSeparator(numeral: string, c: char)
    requires SignedDecimal(numeral).Some? && '\U{1c}' <= c <= '\U{1f}'
    ensures PyInt(numeral + [c]) == None
  {
    var s := numeral + [c];
    assert s[0] == numeral[0] && s[|s| - 1] == c;
    assert IsDigit(numeral[0]) || numeral[0] == '-' || numeral[0] == '+';
    assert IsTrimmed(s, IsIntSpace);
    TrimOfTrimmed(s, IsIntSpace);
    NoNumeralEndsInSeparator(s);
  }

  lemma NoNumeralEndsInSeparator(s: string)
    requires s != [] && !IsDigit(s[|s| - 1])
    ensures SignedDecimal(s) == None
  {
    if |s| > 1 {
      assert s[1..][|s| - 2] == s[|s| - 1];
    }
  }

  lemma NumeralCharNotSpace(c: char)
    requires IsDigit(c) || c == '-'
    ensures !IsPySpace(c) && !IsJsSpace(c) && !IsIntSpace(c)
  {
  }

  /** `int(str(n)) == n`. */
  lemma PyIntOfIntToString(n: int)
    ensures PyInt(IntToString(n)) == Some(n)
  {
    var s := IntToString(n);
    NumeralCharNotSpace(s[0]);
    NumeralCharNotSpace(s[|s| - 1]);
    TrimOfTrimmed(s, IsIntSpace);
    SignedDecimalOfIntToString(n);
  }

  lemma SignedDecimalOfIntToString(n: int)
    ensures SignedDecimal(IntToString(n)) == Some(n)
  {
    var s := IntToString(n);
    if n < 0 {
      assert s[1..] == NatToString(-n);
      DigitsValueOfNatToString(-n);
    } else {
      assert s == NatToString(n);
      DigitsValueOfNatToString(n);
    }
  }
}
