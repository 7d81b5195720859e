/** The remover of C++11 raw strings ([lex.string], section 2.14.5 of ISO C++11). */
module RawStrings {
  import opened Text

  const EMPTY := "\"\""

  /** Whether the text before a raw string puts it into a `//` comment. */
  type CommentTest = string -> bool

  // ---------- finding the beginning of a raw string ----------

  /** The length of an encoding prefix and the quote after it at `i`, or 0. */
  function PrefixAt(s: string, i: nat): (n: nat)
    ensures i + n <= |s| || n == 0
  {
    if WordAt(s, "R\"", i) then 2
    else if WordAt(s, "u8R\"", i) then 4
    else if WordAt(s, "uR\"", i) || WordAt(s, "UR\"", i) || WordAt(s, "LR\"", i) then 3
    else 0
  }

  predicate InDelimiter(c: char) {
    !IsSpace(c) && c != '\\' && c != '(' && c != ')'
  }

  /** The end of the run of delimiter characters from `i`. */
  function SkipDelimiter(s: string, i: nat): (r: nat)
    requires i <= |s|
    ensures i <= r <= |s|
    ensures r < |s| ==> !InDelimiter(s[r])
    ensures forall k :: i <= k < r ==> InDelimiter(s[k])
    decreases |s| - i
  {
    if i < |s| && InDelimiter(s[i]) then SkipDelimiter(s, i + 1) else i
  }

  /** A raw string whose prefix starts at `at`, whose delimiter starts at `delim`
      and whose opening parenthesis is at `paren`. */
  datatype Raw = Raw(at: nat, delim: nat, paren: nat)

  predicate IsRaw(s: string, r: Raw) {
    && r.at + 2 <= r.delim <= r.paren < |s|
    && PrefixAt(s, r.at) == r.delim - r.at
    && (r.at == 0 || !IsWord(s[r.at - 1]))
    && s[r.paren] == '('
    && forall k :: r.delim <= k < r.paren ==> InDelimiter(s[k])
  }

  ghost predicate RawStartsAt(s: string, i: nat) {
    exists r :: IsRaw(s, r) && r.at == i
  }

  /** The raw string whose prefix starts at `i`, if there is one. */
  function RawAt(s: string, i: nat): (r: Option<Raw>)
    requires i <= |s|
    ensures r.Some? ==> IsRaw(s, r.value) && r.value.at == i
    ensures r.None? ==> !RawStartsAt(s, i)
  {
    var n := PrefixAt(s, i);
    if n == 0 || (i > 0 && IsWord(s[i - 1])) then None
    else
      var k := SkipDelimiter(s, i + n);
      if k < |s| && s[k] == '(' then Some(Raw(i, i + n, k)) else None
  }

  /** The first raw string that starts at or after `i`. */
  function FirstRaw(s: string, i: nat): (r: Option<Raw>)
    requires i <= |s|
    ensures r.Some? ==> IsRaw(s, r.value) && i <= r.value.at && forall k :: i <= k < r.value.at ==> !RawStartsAt(s, k)
    ensures r.None? ==> forall k :: i <= k <= |s| ==> !RawStartsAt(s, k)
    decreases |s| - i
  {
    var here := RawAt(s, i);
    if here.Some? || i == |s| then here else FirstRaw(s, i + 1)
  }

  // ---------- removing raw strings ----------

  /** The first position at or after `i` where `t` occurs. */
  function FindFrom(s: string, t: string, i: nat): (r: Option<nat>)
    requires i <= |s|
    ensures r.Some? ==> i <= r.value && WordAt(s, t, r.value) && forall k :: i <= k < r.value ==> !WordAt(s, t, k)
    ensures r.None? ==> forall k :: i <= k <= |s| ==> !WordAt(s, t, k)
    decreases |s| - i
  {
    if WordAt(s, t, i) then Some(i) else if i == |s| then None else FindFrom(s, t, i + 1)
  }

  predicate IsDelimiter(d: string) {
    |d| >= 2 && d[0] == ')'
  }

  function DelimiterOf(line: string, r: Raw): (d: string)
    requires IsRaw(line, r)
    ensures IsDelimiter(d) && |d| == r.paren - r.delim + 2
  {
    ")" + line[r.delim..r.paren] + "\""
  }

  /** The line with the raw string `r`, which ends at `e` after its parenthesis, emptied. */
  function Emptied(line: string, r: Raw, e: nat): (s: string)
    requires IsRaw(line, r) && WordAt(line[r.paren + 1..], DelimiterOf(line, r), e)
    ensures |s| < |line|
  {
    line[..r.at] + EMPTY + line[r.paren + 1..][e + |DelimiterOf(line, r)|..]
  }

  /** The line's first raw string is not in a comment. */
  predicate Live(line: string, commented: CommentTest) {
    var r := FirstRaw(line, 0);
    r.Some? && !commented(line[..r.value.at])
  }

  /** What one turn of the loop does: nothing, empty a raw string that ends on the
      line, or cut the line at one that does not. */
  datatype Turn = Stop | Empty(line: string) | Cut(line: string, delimiter: string)

  /** What becomes of a line whose raw string `r` ends at `end`, or not at all. */
  function TurnOf(line: string, r: Raw, end: Option<nat>): (t: Turn)
    requires IsRaw(line, r) && (end.Some? ==> WordAt(line[r.paren + 1..], DelimiterOf(line, r), end.value))
    ensures !t.Stop? && |t.line| < |line|
    ensures t.Cut? ==> IsDelimiter(t.delimiter)
  {
    match end
    case None => Cut(line[..r.at] + EMPTY, DelimiterOf(line, r))
    case Some(e) => Empty(Emptied(line, r, e))
  }

  function RawTurn(line: string, commented: CommentTest): (t: Turn)
    ensures t.Stop? <==> !Live(line, commented)
    ensures t.Empty? ==> |t.line| < |line|
    ensures t.Cut? ==> |t.line| < |line| && IsDelimiter(t.delimiter)
  {
    match FirstRaw(line, 0)
    case None => Stop
    case Some(r) =>
      if commented(line[..r.at]) then Stop
      else TurnOf(line, r, FindFrom(line[r.paren + 1..], DelimiterOf(line, r), 0))
  }

  // ---------- a raw string as it is written ----------

  predicate AllNonSpace(d: string) {
    forall k :: 0 <= k < |d| ==> !IsSpace(d[k])
  }

  predicate IsPrefix(prefix: string) {
    prefix == "R\"" || prefix == "u8R\"" || prefix == "uR\"" || prefix == "UR\"" || prefix == "LR\""
  }

  predicate AllInDelimiter(d: string) {
    AllNonSpace(d) && '\\' !in d && '(' !in d && ')' !in d
  }

  /** No raw string starts before `n`. */
  ghost predicate NoRawBefore(line: string, n: nat) {
    forall k :: 0 <= k < n ==> !RawStartsAt(line, k)
  }

  lemma PrefixRead(line: string, i: nat, prefix: string)
    requires IsPrefix(prefix) && WordAt(line, prefix, i)
    ensures PrefixAt(line, i) == |prefix|
  {
    assert line[i..i + |prefix|][0] == line[i] == prefix[0] && line[i + 1] == line[i..i + |prefix|][1] == prefix[1];
  }

  lemma OneRaw(line: string, a: Raw, b: Raw)
    requires IsRaw(line, a) && IsRaw(line, b) && a.at == b.at
    ensures a == b
  {
  }

  lemma RawWritten(before: string, prefix: string, d: string, tail: string, line: string, r: Raw)
    requires IsPrefix(prefix) && EndsWord(before) && AllInDelimiter(d) && line == before + prefix + d + "(" + tail
    requires r == Raw(|before|, |before| + |prefix|, |before| + |prefix| + |d|)
    ensures IsRaw(line, r)
  {
    assert line[r.at..r.delim] == prefix && line[r.delim..r.paren] == d && line[..r.at] == before;
    PrefixRead(line, r.at, prefix);
    assert line[r.paren] == '(';
    assert r.at > 0 ==> line[r.at - 1] == before[r.at - 1];
    assert forall k :: r.delim <= k < r.paren ==> line[k] == d[k - r.delim];
  }

  /** Nothing else is found: a raw string is a prefix where a word may begin, a quote, a
      delimiter and a parenthesis. */
  lemma RawIsWritten(line: string, r: Raw)
    requires IsRaw(line, r)
    ensures IsPrefix(line[r.at..r.delim]) && EndsWord(line[..r.at])
    ensures AllInDelimiter(line[r.delim..r.paren]) && line[r.paren] == '('
  {
    forall k | r.delim <= k < r.paren
      ensures line[r.delim..r.paren][k - r.delim] == line[k] && InDelimiter(line[k])
    {
    }
  }

  lemma RawFound(before: string, prefix: string, d: string, tail: string, line: string)
    requires IsPrefix(prefix) && EndsWord(before) && AllInDelimiter(d)
    requires line == before + prefix + d + "(" + tail && NoRawBefore(line, |before|)
    ensures FirstRaw(line, 0) == Some(Raw(|before|, |before| + |prefix|, |before| + |prefix| + |d|))
  {
    var r := Raw(|before|, |before| + |prefix|, |before| + |prefix| + |d|);
    RawWritten(before, prefix, d, tail, line, r);
    assert RawStartsAt(line, r.at);
    var found := FirstRaw(line, 0);
    assert found.Some?;
    assert RawStartsAt(line, found.value.at);
    OneRaw(line, r, found.value);
  }

  /** What ends a raw string with the delimiter `d`. */
  function Ending(d: string): string {
    ")" + d + "\""
  }

  lemma RawParts(before: string, prefix: string, d: string, tail: string, line: string, r: Raw)
    requires line == before + prefix + d + "(" + tail
    requires r == Raw(|before|, |before| + |prefix|, |before| + |prefix| + |d|) && IsRaw(line, r)
    ensures line[..r.at] == before && line[r.paren + 1..] == tail && DelimiterOf(line, r) == Ending(d)
  {
    assert line[r.delim..r.paren] == d;
  }

  lemma EndingFound(body: string, end: string, after: string, tail: string)
    requires tail == body + end + after && forall k :: 0 <= k < |body| ==> !WordAt(tail, end, k)
    ensures FindFrom(tail, end, 0) == Some(|body|) && WordAt(tail, end, |body|) && tail[|body| + |end|..] == after
  {
    assert tail[|body|..|body| + |end|] == end;
    assert WordAt(tail, end, |body|);
  }

  lemma TurnEmpties(line: string, r: Raw, before: string, tail: string, end: string, e: nat)
    requires IsRaw(line, r) && line[..r.at] == before && line[r.paren + 1..] == tail && DelimiterOf(line, r) == end
    requires WordAt(tail, end, e)
    ensures TurnOf(line, r, Some(e)) == Empty(before + EMPTY + tail[e + |end|..])
  {
  }

  /** The first raw string of a line, unless it is commented out, becomes an empty string
      if it ends on the line, and what is around it stays. */
  lemma RawEmptied(before: string, prefix: string, d: string, body: string, after: string, tail: string, line: string,
                   commented: CommentTest)
    requires IsPrefix(prefix) && EndsWord(before) && AllInDelimiter(d)
    requires tail == body + Ending(d) + after && line == before + prefix + d + "(" + tail
    requires NoRawBefore(line, |before|) && forall k :: 0 <= k < |body| ==> !WordAt(tail, Ending(d), k)
    ensures RawTurn(line, commented) == if commented(before) then Stop else Empty(before + "\"\"" + after)
  {
    RawFound(before, prefix, d, tail, line);
    RawParts(before, prefix, d, tail, line, FirstRaw(line, 0).value);
    EndingFound(body, Ending(d), after, tail);
    TurnEmpties(line, FirstRaw(line, 0).value, before, tail, Ending(d), |body|);
  }

  /** One that does not end on the line is cut off with all that follows, and what ends
      it is remembered. */
  lemma RawCut(before: string, prefix: string, d: string, tail: string, line: string, commented: CommentTest)
    requires IsPrefix(prefix) && EndsWord(before) && AllInDelimiter(d) && line == before + prefix + d + "(" + tail
    requires NoRawBefore(line, |before|) && forall k :: 0 <= k <= |tail| ==> !WordAt(tail, Ending(d), k)
    ensures RawTurn(line, commented) == if commented(before) then Stop else Cut(before + "\"\"", ")" + d + "\"")
  {
    RawFound(before, prefix, d, tail, line);
    RawParts(before, prefix, d, tail, line, FirstRaw(line, 0).value);
  }

  lemma RawInPrefix(line: string, cut: string, at: nat, r: Raw)
    requires at <= |line| && at <= |cut| && cut[..at] == line[..at]
    requires IsRaw(cut, r) && r.paren < at
    ensures IsRaw(line, r) && RawStartsAt(line, r.at)
  {
    assert forall k :: 0 <= k < at ==> cut[k] == line[k] by {
      assert forall k :: 0 <= k < at ==> cut[..at][k] == line[..at][k];
    }
    forall word: string | r.at + |word| <= at
      ensures WordAt(cut, word, r.at) == WordAt(line, word, r.at)
    {
      assert cut[r.at..r.at + |word|] == line[r.at..r.at + |word|];
    }
  }

  /** Cutting a line at its first raw string leaves no raw string. */
  lemma CutHasNoRaw(line: string, at: nat)
    requires at <= |line| && forall k :: 0 <= k < at ==> !RawStartsAt(line, k)
    ensures FirstRaw(line[..at] + EMPTY, 0) == None
  {
    var cut := line[..at] + EMPTY;
    var found := FirstRaw(cut, 0);
    if found.Some? {
      var r := found.value;
      assert cut[at] == '"' && cut[at + 1] == '"';
      assert r.paren < at;
      RawInPrefix(line, cut, at, r);
      assert false;
    }
  }

  // ---------- removing raw strings, turn by turn ----------

  type Turner = string -> Turn

  function RawTurner(commented: CommentTest): Turner {
    (line: string) => RawTurn(line, commented)
  }

  /** Every turn shortens the line, and neither a cut line nor an empty string
      needs another turn. */
  ghost predicate Sound(turn: Turner) {
    && turn(EMPTY).Stop?
    && (forall line :: turn(line).Empty? ==> |turn(line).line| < |line|)
    && (forall line :: turn(line).Cut? ==>
          |turn(line).line| < |line| && IsDelimiter(turn(line).delimiter) && turn(turn(line).line).Stop?)
  }

  lemma RawTurnerIsSound(commented: CommentTest)
    ensures Sound(RawTurner(commented))
    ensures forall line :: RawTurner(commented)(line).Stop? <==> !Live(line, commented)
  {
    CutHasNoRaw("", 0);
    assert ""[..0] + EMPTY == EMPTY;
    forall line | RawTurn(line, commented).Cut?
      ensures RawTurn(RawTurn(line, commented).line, commented).Stop?
    {
      CutHasNoRaw(line, FirstRaw(line, 0).value.at);
    }
  }

  /** A line without its raw strings, and what ends the one still open. */
  datatype Cleansed = Cleansed(line: string, delimiter: Option<string>)

  function CleanseLine(turn: Turner, line: string): (c: Cleansed)
    requires Sound(turn)
    ensures c.delimiter.Some? ==> IsDelimiter(c.delimiter.value)
    decreases |line|
  {
    match turn(line)
    case Stop => Cleansed(line, None)
    case Empty(shorter) => CleanseLine(turn, shorter)
    case Cut(cut, d) => Cleansed(cut, Some(d))
  }

  /** The white space before the first other character; there must be one. */
  function LeadingSpace(line: string): string
    requires exists i :: 0 <= i < |line| && !IsSpace(line[i])
  {
    line[..SkipSpaces(line, 0)]
  }

  /** What is left of a line on which the open raw string ends at `e`. */
  function AfterDelimiter(line: string, d: string, e: nat): string
    requires IsDelimiter(d) && WordAt(line, d, e)
  {
    assert line[e..e + |d|][0] == ')' && !IsSpace(line[e]);
    LeadingSpace(line) + EMPTY + line[e + |d|..]
  }

  function CleanseNext(turn: Turner, delimiter: Option<string>, line: string): (c: Cleansed)
    requires Sound(turn) && (delimiter.Some? ==> IsDelimiter(delimiter.value))
    ensures c.delimiter.Some? ==> IsDelimiter(c.delimiter.value)
  {
    match delimiter
    case None => CleanseLine(turn, line)
    case Some(d) =>
      match FindFrom(line, d, 0)
      case None => Cleansed(EMPTY, delimiter)
      case Some(e) => CleanseLine(turn, AfterDelimiter(line, d, e))
  }

  function Cleanse(turn: Turner, lines: seq<string>, delimiter: Option<string>): (out: seq<string>)
    requires Sound(turn) && (delimiter.Some? ==> IsDelimiter(delimiter.value))
    ensures |out| == |lines|
  {
    if lines == [] then []
    else
      var c := CleanseNext(turn, delimiter, lines[0]);
      [c.line] + Cleanse(turn, lines[1..], c.delimiter)
  }

  // ---------- what the output looks like ----------

  lemma {:induction false} CleansedStops(turn: Turner, line: string)
    requires Sound(turn)
    ensures turn(CleanseLine(turn, line).line).Stop?
    ensures |CleanseLine(turn, line).line| <= |line|
    ensures CleanseLine(turn, line).line == line <==> turn(line).Stop?
    decreases |line|
  {
    if turn(line).Empty? {
      CleansedStops(turn, turn(line).line);
    }
  }

  lemma {:induction false} OutputStops(turn: Turner, lines: seq<string>, delimiter: Option<string>, i: nat)
    requires Sound(turn) && i < |lines| && (delimiter.Some? ==> IsDelimiter(delimiter.value))
    ensures turn(Cleanse(turn, lines, delimiter)[i]).Stop?
    decreases i
  {
    var c := CleanseNext(turn, delimiter, lines[0]);
    if i > 0 {
      OutputStops(turn, lines[1..], c.delimiter, i - 1);
    } else if delimiter.None? {
      CleansedStops(turn, lines[0]);
    } else {
      var end := FindFrom(lines[0], delimiter.value, 0);
      if end.Some? {
        CleansedStops(turn, AfterDelimiter(lines[0], delimiter.value, end.value));
      }
    }
  }

  lemma {:induction false} UnchangedIffStops(turn: Turner, lines: seq<string>)
    requires Sound(turn)
    ensures Cleanse(turn, lines, None) == lines <==> forall i :: 0 <= i < |lines| ==> turn(lines[i]).Stop?
  {
    if lines != [] {
      CleansedStops(turn, lines[0]);
      if turn(lines[0]).Stop? {
        var out, rest := Cleanse(turn, lines, None), Cleanse(turn, lines[1..], None);
        UnchangedIffStops(turn, lines[1..]);
        assert out == [lines[0]] + rest && lines == [lines[0]] + lines[1..];
        assert out[1..] == rest;
        assert forall i :: 1 <= i < |lines| ==> lines[i] == lines[1..][i - 1];
      }
    }
  }

  /** The delimiter of the raw string that is open before line `i`. */
  function OpenBefore(turn: Turner, lines: seq<string>, open: Option<string>, i: nat): (d: Option<string>)
    requires Sound(turn) && i <= |lines| && (open.Some? ==> IsDelimiter(open.value))
    ensures d.Some? ==> IsDelimiter(d.value)
    decreases i
  {
    if i == 0 then open else OpenBefore(turn, lines[1..], CleanseNext(turn, open, lines[0]).delimiter, i - 1)
  }

  lemma {:induction false} CleansedLine(turn: Turner, lines: seq<string>, open: Option<string>, i: nat)
    requires Sound(turn) && i < |lines| && (open.Some? ==> IsDelimiter(open.value))
    ensures Cleansed(Cleanse(turn, lines, open)[i], OpenBefore(turn, lines, open, i + 1))
         == CleanseNext(turn, OpenBefore(turn, lines, open, i), lines[i])
    decreases i
  {
    var c := CleanseNext(turn, open, lines[0]);
    if i > 0 {
      CleansedLine(turn, lines[1..], c.delimiter, i - 1);
    }
  }

  /** A line inside a raw string that does not hold its delimiter comes out empty and
      leaves it open; from one that does, what precedes the first delimiter is gone but
      for leading space, and the rest is treated like any line. */
  lemma InsideRawString(turn: Turner, lines: seq<string>, i: nat)
    requires Sound(turn) && i < |lines|
    ensures var line, now := lines[i], Cleansed(Cleanse(turn, lines, None)[i], OpenBefore(turn, lines, None, i + 1));
            match OpenBefore(turn, lines, None, i)
            case None => now == CleanseLine(turn, line)
            case Some(d) =>
              match FindFrom(line, d, 0)
              case None => now == Cleansed(EMPTY, Some(d))
              case Some(e) => now == CleanseLine(turn, AfterDelimiter(line, d, e))
  {
    CleansedLine(turn, lines, None, i);
  }

  /** Lines come out as they went in if and only if none of them has a live raw string. */
  lemma UnchangedIffNotLive(lines: seq<string>, commented: CommentTest)
    ensures Sound(RawTurner(commented))
    ensures Cleanse(RawTurner(commented), lines, None) == lines <==>
            forall i :: 0 <= i < |lines| ==> !Live(lines[i], commented)
  {
    RawTurnerIsSound(commented);
    UnchangedIffStops(RawTurner(commented), lines);
  }

  /** Removing raw strings twice is removing them once, and leaves no live one,
      whatever counts as a comment. */
  lemma CleanseTwice(lines: seq<string>, commented: CommentTest)
    ensures Sound(RawTurner(commented))
    ensures var turn := RawTurner(commented);
            var out := Cleanse(turn, lines, None);
            && Cleanse(turn, out, None) == out
            && forall i :: 0 <= i < |out| ==> !Live(out[i], commented)
  {
    var turn := RawTurner(commented);
    RawTurnerIsSound(commented);
    var out := Cleanse(turn, lines, None);
    forall i | 0 <= i < |out|
      ensures turn(out[i]).Stop?
    {
      OutputStops(turn, lines, None, i);
    }
    UnchangedIffStops(turn, out);
  }

  // ---------- a raw string over several lines ----------

  lemma LastLine(space: string, inner: string, end: string, after: string, line: string)
    requires IsDelimiter(end) && AllSpace(space) && (inner == "" || !IsSpace(inner[0]))
    requires line == space + inner + end + after
    requires forall k :: 0 <= k < |space + inner| ==> !WordAt(line, end, k)
    ensures FindFrom(line, end, 0) == Some(|space + inner|)
    ensures AfterDelimiter(line, end, |space + inner|) == space + EMPTY + after
  {
    EndingFound(space + inner, end, after, line);
    assert line[|space|] == if inner == "" then ')' else inner[0];
    assert SkipSpaces(line, 0) == |space| && line[..|space|] == space;
  }

  lemma {:induction false} MiddleLines(turn: Turner, middle: seq<string>, end: string, later: seq<string>)
    requires Sound(turn) && IsDelimiter(end)
    requires forall i :: 0 <= i < |middle| ==> FindFrom(middle[i], end, 0).None?
    ensures Cleanse(turn, middle + later, Some(end)) == seq(|middle|, _ => EMPTY) + Cleanse(turn, later, Some(end))
  {
    if middle == [] {
      assert middle + later == later;
      assert Cleanse(turn, middle + later, Some(end)) == Cleanse(turn, later, Some(end));
    } else {
      assert (middle + later)[1..] == middle[1..] + later && (middle + later)[0] == middle[0];
      assert forall i :: 0 <= i < |middle[1..]| ==> middle[1..][i] == middle[i + 1];
      MiddleLines(turn, middle[1..], end, later);
      assert seq(|middle|, _ => EMPTY) == [EMPTY] + seq(|middle[1..]|, _ => EMPTY);
    }
  }

  lemma LastLines(turn: Turner, end: string, last: string, e: nat, rest: seq<string>)
    requires Sound(turn) && IsDelimiter(end) && FindFrom(last, end, 0) == Some(e)
    ensures Cleanse(turn, [last] + rest, Some(end)) == Cleanse(turn, [AfterDelimiter(last, end, e)] + rest, None)
  {
    assert ([last] + rest)[1..] == rest;
    assert ([AfterDelimiter(last, end, e)] + rest)[1..] == rest;
  }

  lemma FirstLines(turn: Turner, first: string, cut: string, end: string, later: seq<string>)
    requires Sound(turn) && turn(first) == Cut(cut, end)
    ensures Cleanse(turn, [first] + later, None) == [cut] + Cleanse(turn, later, Some(end))
  {
    assert ([first] + later)[1..] == later;
  }

  /** A raw string that starts on one line, goes over any number of others and ends on a
      last one: its beginning and its end become empty strings, the lines between are
      nothing else, and what follows it is treated like the start of a line. */
  lemma RawOverLines(before: string, prefix: string, d: string, tail: string, middle: seq<string>,
                     space: string, inner: string, after: string, first: string, last: string, rest: seq<string>,
                     commented: CommentTest)
    requires IsPrefix(prefix) && EndsWord(before) && AllInDelimiter(d) && !commented(before)
    requires first == before + prefix + d + "(" + tail && NoRawBefore(first, |before|)
    requires forall k :: 0 <= k <= |tail| ==> !WordAt(tail, Ending(d), k)
    requires forall i :: 0 <= i < |middle| ==> FindFrom(middle[i], Ending(d), 0).None?
    requires AllSpace(space) && (inner == "" || !IsSpace(inner[0])) && last == space + inner + Ending(d) + after
    requires forall k :: 0 <= k < |space + inner| ==> !WordAt(last, Ending(d), k)
    ensures Sound(RawTurner(commented))
    ensures var turn := RawTurner(commented);
            Cleanse(turn, [first] + (middle + ([last] + rest)), None)
            == [before + EMPTY] + (seq(|middle|, _ => EMPTY) + Cleanse(turn, [space + EMPTY + after] + rest, None))
  {
    var turn, end := RawTurner(commented), Ending(d);
    RawTurnerIsSound(commented);
    RawCut(before, prefix, d, tail, first, commented);
    FirstLines(turn, first, before + EMPTY, end, middle + ([last] + rest));
    MiddleLines(turn, middle, end, [last] + rest);
    LastLine(space, inner, end, after, last);
    LastLines(turn, end, last, |space + inner|, rest);
  }

  // ---------- the loops ----------

  method RemoveRawStrings(turn: Turner, line0: string) returns (line: string, delimiter: Option<string>)
    requires Sound(turn)
    ensures Cleansed(line, delimiter) == CleanseLine(turn, line0)
  {
    line, delimiter := line0, None;
    while delimiter.None?
      invariant if delimiter.None? then CleanseLine(turn, line0) == CleanseLine(turn, line)
                else Cleansed(line, delimiter) == CleanseLine(turn, line0)
      decreases delimiter.None?, |line|
    {
      var t := turn(line);
      match t {
        case Stop => return;
        case Empty(shorter) => line := shorter;
        case Cut(cut, d) => line, delimiter := cut, Some(d);
      }
    }
  }

  /** One line, inside a raw string or not. */
  method CleanseOneLine(turn: Turner, open: Option<string>, text: string) returns (line: string, delimiter: Option<string>)
    requires Sound(turn) && (open.Some? ==> IsDelimiter(open.value))
    ensures Cleansed(line, delimiter) == CleanseNext(turn, open, text)
  {
    line, delimiter := text, open;
    if delimiter.Some? {
      var end := FindFrom(line, delimiter.value, 0);
      if end.None? {
        return EMPTY, delimiter;
      }
      line := AfterDelimiter(line, delimiter.value, end.value);
    }
    line, delimiter := RemoveRawStrings(turn, line);
  }

  lemma CleanseStep(turn: Turner, lines: seq<string>, i: nat, open: Option<string>, out: seq<string>, c: Cleansed)
    requires Sound(turn) && (open.Some? ==> IsDelimiter(open.value))
    requires i < |lines| && c == CleanseNext(turn, open, lines[i])
    ensures out + Cleanse(turn, lines[i..], open) == (out + [c.line]) + Cleanse(turn, lines[i + 1..], c.delimiter)
  {
    assert lines[i..][1..] == lines[i + 1..];
    var rest := Cleanse(turn, lines[i + 1..], c.delimiter);
    assert Cleanse(turn, lines[i..], open) == [c.line] + rest;
    assert out + ([c.line] + rest) == (out + [c.line]) + rest;
  }

  /** One line out for each line in. */
  method CleanseLines(turn: Turner, lines: seq<string>) returns (out: seq<string>)
    requires Sound(turn)
    ensures out == Cleanse(turn, lines, None)
  {
    var delimiter: Option<string> := None;
    out := [];
    ghost var all := Cleanse(turn, lines, None);
    assert lines[0..] == lines;
    for i := 0 to |lines|
      invariant delimiter.Some? ==> IsDelimiter(delimiter.value)
      invariant all == out + Cleanse(turn, lines[i..], delimiter)
    {
      var line;
      ghost var open := delimiter;
      line, delimiter := CleanseOneLine(turn, delimiter, lines[i]);
      CleanseStep(turn, lines, i, open, out, Cleansed(line, delimiter));
      out := out + [line];
    }
  }

  method CleanseRawStrings(lines: seq<string>, commented: CommentTest) returns (out: seq<string>)
    ensures Sound(RawTurner(commented)) && out == Cleanse(RawTurner(commented), lines, None)
  {
    RawTurnerIsSound(commented);
    out := CleanseLines(RawTurner(commented), lines);
  }
}
