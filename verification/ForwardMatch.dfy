/** The forward expression matcher of cpplint.  It treats `<` and `>` as
    tentative brackets: they go on the stack with `(`, `[` and `{` but are
    thrown away again whenever they turn out to be operators. */
module ForwardMatch {
  import opened Text
  import opened Brackets
  import opened Lines

  // ---------- what each character counts as ----------

  /** Stands for the second half of `<<`. */
  const SHIFT := '~'

  /** Stands for any character without influence. */
  const PLAIN := ' '

  /** What the character at `i` counts as: a bracket or semicolon as itself, `<`
      and `>` as themselves unless they belong to `->` or an operator name. */
  function Token(line: string, i: nat): (t: char)
    requires i < |line|
    ensures IsBracket(t) || IsBracket(line[i]) ==> t == line[i]
    ensures t == ';' <==> line[i] == ';'
    ensures t == '>' ==> line[i] == '>'
  {
    var c := line[i];
    if IsBracket(c) || c == ';' then c
    else if c == '<' then
      if i > 0 && line[i - 1] == '<' then SHIFT
      else if i > 0 && EndsWithOperator(line[..i]) then PLAIN
      else '<'
    else if c == '>' then
      if i > 0 && (line[i - 1] == '-' || EndsWithOperator(line[..i - 1])) then PLAIN else '>'
    else PLAIN
  }

  function MarkLine(line: string): (r: string)
    ensures |r| == |line|
  {
    seq(|line|, i requires 0 <= i < |line| => Token(line, i))
  }

  function Marked(lines: seq<string>): (r: seq<string>)
    ensures |r| == |lines|
  {
    seq(|lines|, l requires 0 <= l < |lines| => MarkLine(lines[l]))
  }

  /** What the file's characters count as, in one text. */
  function Marks(lines: seq<string>): string {
    Whole(Marked(lines))
  }

  // ---------- the stack machine ----------

  /** One step of the matcher at a token; `next` is the position after it. */
  function Step(token: char, next: nat, stack: string): Scan {
    if IsOpener(token) || token == '<' then Open(stack + [token])
    else if token == SHIFT then
      if stack == [] || Top(stack) != '<' then Open(stack)
      else if |stack| == 1 then Dead
      else Open(Pop(stack))
    else if IsCloser(token) then
      var st := DropTentative(stack, '<');
      if st == [] || !Matches(Top(st), token) then Dead
      else if |st| == 1 then Found(next)
      else Open(Pop(st))
    else if token == '>' then
      if stack == [] || Top(stack) != '<' then Open(stack)
      else if |stack| == 1 then Found(next)
      else Open(Pop(stack))
    else if token == ';' then
      var st := DropTentative(stack, '<');
      if st == [] then Dead else Open(st)
    else Open(stack)
  }

  function ScanEnd(line: string, i: nat, stack: string): Scan
    decreases |line| - i
  {
    if i >= |line| then Open(stack)
    else
      match Step(Token(line, i), i + 1, stack)
      case Open(s) => ScanEnd(line, i + 1, s)
      case r => r
  }

  /** What follows once line `l` has been scanned with outcome `scan`. */
  function FollowForward(lines: seq<string>, l: nat, scan: Scan): Place
    requires l < |lines|
    decreases |lines| - l
  {
    match scan
    case Found(e) => At(l, e)
    case Dead => NotFound
    case Open(stack) =>
      if stack == [] || l + 1 == |lines| then NotFound
      else FollowForward(lines, l + 1, ScanEnd(lines[l + 1], 0, stack))
  }

  /** The line on which such a scan ends. */
  function StopLine(lines: seq<string>, l: nat, scan: Scan): (r: nat)
    requires l < |lines|
    ensures l <= r < |lines|
    decreases |lines| - l
  {
    match scan
    case Open(stack) =>
      if stack == [] || l + 1 == |lines| then l else StopLine(lines, l + 1, ScanEnd(lines[l + 1], 0, stack))
    case _ => l
  }

  /** `<<` or `<=` starts at `p`. */
  predicate ShiftOrCompare(line: string, p: nat)
    requires p < |line|
  {
    line[p] == '<' && p + 1 < |line| && (line[p + 1] == '<' || line[p + 1] == '=')
  }

  /** CloseExpression looks for an end only from an opening bracket or a `<` that
      starts neither `<<` nor `<=`. */
  predicate MayOpen(line: string, p: nat)
    requires p < |line|
  {
    (IsOpener(line[p]) || line[p] == '<') && !ShiftOrCompare(line, p)
  }

  /** What a scan from `p` with nothing on the stack finds. */
  function Scanned(lines: seq<string>, l: nat, p: nat): Place
    requires l < |lines| && p <= |lines[l]|
  {
    FollowForward(lines, l, ScanEnd(lines[l], p, []))
  }

  /** The answer of CloseExpression: the position just past the closing end. */
  function Close(lines: seq<string>, l: nat, p: nat): Place
    requires l < |lines| && p < |lines[l]|
  {
    if MayOpen(lines[l], p) then Scanned(lines, l, p) else NotFound
  }

  // ---------- the machine on the whole text ----------

  function TokenScan(marks: string, x: nat, stack: string): Option<nat>
    requires x <= |marks|
    decreases |marks| - x
  {
    if x == |marks| then None
    else
      match Step(marks[x], x + 1, stack)
      case Found(e) => Some(e)
      case Dead => None
      case Open(s) => TokenScan(marks, x + 1, s)
  }

  /** A place as a position in the whole text. */
  function Flat(lines: seq<string>, place: Place): Option<nat>
    requires place.At? ==> place.line <= |lines|
  {
    match place
    case At(l, p) => Some(Offset(lines, l) + p)
    case NotFound => None
  }

  /** A place that is just past some character of the file. */
  predicate PastCharacter(lines: seq<string>, place: Place) {
    place.At? ==> place.line < |lines| && 0 < place.pos <= |lines[place.line]|
  }

  lemma StepKeepsStack(token: char, next: nat, other: nat, stack: string)
    requires stack != []
    ensures match Step(token, next, stack)
            case Found(e) => e == next && Step(token, other, stack) == Found(other)
            case Dead => Step(token, other, stack) == Dead
            case Open(s) => s != [] && Step(token, other, stack) == Open(s)
  {
  }

  lemma {:induction false} ScanEndIsTokenScan(marks: string, off: nat, line: string, i: nat, stack: string)
    requires off + |line| <= |marks| && marks[off..off + |line|] == MarkLine(line)
    requires i <= |line| && stack != []
    ensures match ScanEnd(line, i, stack)
            case Found(e) => i < e <= |line| && TokenScan(marks, off + i, stack) == Some(off + e)
            case Dead => TokenScan(marks, off + i, stack) == None
            case Open(s) => s != [] && TokenScan(marks, off + i, stack) == TokenScan(marks, off + |line|, s)
    decreases |line| - i
  {
    if i < |line| {
      assert marks[off + i] == MarkLine(line)[i] == Token(line, i);
      StepKeepsStack(Token(line, i), i + 1, off + i + 1, stack);
      var step := Step(Token(line, i), i + 1, stack);
      if step.Open? {
        ScanEndIsTokenScan(marks, off, line, i + 1, step.stack);
      }
    }
  }

  lemma {:induction false} OffsetMarked(lines: seq<string>, l: nat)
    requires l <= |lines|
    ensures Offset(Marked(lines), l) == Offset(lines, l)
  {
    if l > 0 {
      OffsetMarked(lines, l - 1);
    }
  }

  lemma LineInMarks(lines: seq<string>, marks: string, l: nat)
    requires l < |lines| && marks == Marks(lines)
    ensures Offset(lines, l) + |lines[l]| <= |marks|
    ensures marks[Offset(lines, l)..Offset(lines, l) + |lines[l]|] == MarkLine(lines[l])
    ensures Offset(lines, l + 1) == Offset(lines, l) + |lines[l]|
    ensures l + 1 == |lines| ==> Offset(lines, l + 1) == |marks|
  {
    LineInWhole(Marked(lines), marks, l);
    OffsetMarked(lines, l);
    OffsetMarked(lines, l + 1);
  }

  lemma {:induction false} FollowIsTokenScan(lines: seq<string>, marks: string, l: nat, i: nat, stack: string)
    requires l < |lines| && i <= |lines[l]| && stack != [] && marks == Marks(lines)
    ensures Offset(lines, l) + i <= |marks|
    ensures var r := FollowForward(lines, l, ScanEnd(lines[l], i, stack));
            && (r.At? ==> l <= r.line)
            && PastCharacter(lines, r) && Flat(lines, r) == TokenScan(marks, Offset(lines, l) + i, stack)
    decreases |lines| - l
  {
    LineInMarks(lines, marks, l);
    ScanEndIsTokenScan(marks, Offset(lines, l), lines[l], i, stack);
    var scan := ScanEnd(lines[l], i, stack);
    if scan.Open? && l + 1 < |lines| {
      FollowIsTokenScan(lines, marks, l + 1, 0, scan.stack);
    }
  }

  /** The `<` at `p` goes on the stack: it is not the second half of `<<` and
      does not follow the keyword `operator`. */
  predicate Pushed(line: string, p: nat)
    requires p < |line|
  {
    line[p] == '<' && !(p > 0 && (line[p - 1] == '<' || EndsWithOperator(line[..p])))
  }

  /** Started at a bracket or at a `<` that is pushed, the scan is the machine on
      the whole text; line breaks are gone. */
  lemma ScannedIsTokenScan(lines: seq<string>, marks: string, l: nat, p: nat)
    requires l < |lines| && p < |lines[l]| && marks == Marks(lines)
    requires IsOpener(lines[l][p]) || Pushed(lines[l], p)
    ensures var r, x := Scanned(lines, l, p), Offset(lines, l) + p;
            && x < |marks| && marks[x] == lines[l][p]
            && (r.At? ==> l <= r.line)
            && PastCharacter(lines, r) && Flat(lines, r) == TokenScan(marks, x + 1, [marks[x]])
  {
    var line, c := lines[l], lines[l][p];
    LineInMarks(lines, marks, l);
    assert marks[Offset(lines, l) + p] == MarkLine(line)[p] == Token(line, p);
    var none: string := [];
    assert Step(c, p + 1, none) == Open([c]) by {
      assert none + [c] == [c];
    }
    FollowIsTokenScan(lines, marks, l, p + 1, [c]);
  }

  lemma CloseIsTokenScan(lines: seq<string>, marks: string, l: nat, p: nat)
    requires l < |lines| && p < |lines[l]| && marks == Marks(lines)
    requires IsOpener(lines[l][p]) || (Pushed(lines[l], p) && !ShiftOrCompare(lines[l], p))
    ensures var r, x := Close(lines, l, p), Offset(lines, l) + p;
            && x < |marks| && marks[x] == lines[l][p]
            && (r.At? ==> l <= r.line)
            && PastCharacter(lines, r) && Flat(lines, r) == TokenScan(marks, x + 1, [marks[x]])
  {
    ScannedIsTokenScan(lines, marks, l, p);
  }

  // ---------- brackets ----------

  lemma CloserMatch(marks: string, x: nat, below: string, top: char)
    requires x < |marks| && IsCloser(marks[x])
    ensures MatchForward(marks, x, below + [top])
         == if !Matches(top, marks[x]) then None
            else if below == [] then Some(x + 1)
            else MatchForward(marks, x + 1, below)
  {
    assert (below + [top])[..|below|] == below;
  }

  lemma CloserStepRefines(marks: string, x: nat, base: string, stack: string) returns (t: string)
    requires x < |marks| && IsCloser(marks[x]) && stack != [] && stack[0] != '<'
    ensures var plain := MatchForward(marks, x, Without(stack, '<'));
            match Step(marks[x], x + 1, base + stack)
            case Found(e) => base == [] && e == x + 1 && plain == Some(e)
            case Dead => plain == None
            case Open(s) =>
              && s == base + t
              && (t == [] ==> base != [] && plain == Some(x + 1))
              && (t != [] ==> t[0] != '<' && plain == MatchForward(marks, x + 1, Without(t, '<')))
  {
    var top;
    top, t := BracketMet(base, stack, '<');
    CloserMatch(marks, x, Without(t, '<'), top);
    AboveBase(base, t + [top]);
    assert Pop(t + [top]) == t;
  }

  /** Above any `base`, a stack whose bottom is a real bracket does what the plain
      matcher does: tentative brackets change nothing. */
  lemma StepRefines(marks: string, x: nat, base: string, stack: string) returns (t: string)
    requires x < |marks| && stack != [] && stack[0] != '<'
    ensures var plain := MatchForward(marks, x, Without(stack, '<'));
            match Step(marks[x], x + 1, base + stack)
            case Found(e) => base == [] && e == x + 1 && plain == Some(e)
            case Dead => plain == None
            case Open(s) =>
              && s == base + t
              && (t == [] ==> base != [] && plain == Some(x + 1))
              && (t != [] ==> t[0] != '<' && plain == MatchForward(marks, x + 1, Without(t, '<')))
  {
    var c := marks[x];
    if IsCloser(c) {
      t := CloserStepRefines(marks, x, base, stack);
    } else {
      t := stack;
      AboveBase(base, stack);
      if IsOpener(c) || c == '<' {
        t := stack + [c];
        assert (base + stack) + [c] == base + t;
        WithoutPush(stack, '<', c);
      } else if (c == '>' || c == SHIFT) && Top(stack) == '<' {
        t := Pop(stack);
        WithoutPop(stack, '<');
      } else if c == ';' {
        DropKeepsRest(stack, '<');
        DropAbove(base, stack, '<');
        t := DropTentative(stack, '<');
      }
    }
  }

  lemma {:induction false} ScanAboveBase(marks: string, x: nat, base: string, stack: string)
    requires x <= |marks| && stack != [] && stack[0] != '<'
    ensures match MatchForward(marks, x, Without(stack, '<'))
            case Some(e) =>
              && x < e <= |marks|
              && TokenScan(marks, x, base + stack) == if base == [] then Some(e) else TokenScan(marks, e, base)
            case None => TokenScan(marks, x, base + stack) == None
    decreases |marks| - x
  {
    if x < |marks| {
      var t := StepRefines(marks, x, base, stack);
      var step := Step(marks[x], x + 1, base + stack);
      if step.Open? && t != [] {
        ScanAboveBase(marks, x + 1, base, t);
      }
      assert base + [] == base;
    }
  }

  lemma TokenScanRefines(marks: string, x: nat, stack: string)
    requires x <= |marks| && stack != [] && stack[0] != '<'
    ensures TokenScan(marks, x, stack) == MatchForward(marks, x, Without(stack, '<'))
  {
    assert [] + stack == stack;
    ScanAboveBase(marks, x, [], stack);
  }

  /** Two texts of one length that have the same brackets in the same places. */
  ghost predicate SameBrackets(text: string, other: string) {
    && |text| == |other|
    && forall i :: 0 <= i < |text| ==>
         text[i] == other[i] || (!IsBracket(text[i]) && !IsBracket(other[i]))
  }

  lemma {:induction false} MatchForwardSeesBrackets(text: string, other: string, i: nat, stack: string)
    requires SameBrackets(text, other) && i <= |text|
    ensures MatchForward(text, i, stack) == MatchForward(other, i, stack)
    decreases |text| - i
  {
    if i < |text| {
      if IsOpener(text[i]) {
        MatchForwardSeesBrackets(text, other, i + 1, stack + [text[i]]);
      } else if IsCloser(text[i]) {
        if |stack| > 1 {
          MatchForwardSeesBrackets(text, other, i + 1, stack[..|stack| - 1]);
        }
      } else {
        MatchForwardSeesBrackets(text, other, i + 1, stack);
      }
    }
  }

  lemma {:induction false} MarksKeepBrackets(lines: seq<string>, n: nat)
    requires n <= |lines|
    ensures SameBrackets(Joined(lines, n), Joined(Marked(lines), n))
    ensures forall i :: 0 <= i < |Joined(lines, n)| ==> (Joined(lines, n)[i] == ';' <==> Joined(Marked(lines), n)[i] == ';')
  {
    if n > 0 {
      MarksKeepBrackets(lines, n - 1);
      var line := lines[n - 1];
      forall i | 0 <= i < |line|
        ensures MarkLine(line)[i] == line[i] || (!IsBracket(line[i]) && !IsBracket(MarkLine(line)[i]))
        ensures MarkLine(line)[i] == ';' <==> line[i] == ';'
      {
        assert MarkLine(line)[i] == Token(line, i);
      }
      assert Marked(lines)[n - 1] == MarkLine(line);
    }
  }

  /** From a bracket, CloseExpression computes what the plain matcher computes
      on the whole text. */
  lemma CloseRefines(lines: seq<string>, text: string, l: nat, p: nat)
    requires l < |lines| && p < |lines[l]| && IsOpener(lines[l][p]) && text == Whole(lines)
    ensures var r, x := Close(lines, l, p), Offset(lines, l) + p;
            && x < |text| && text[x] == lines[l][p]
            && (r.At? ==> l <= r.line)
            && PastCharacter(lines, r) && Flat(lines, r) == MatchForward(text, x + 1, [text[x]])
  {
    var marks, x, c := Marks(lines), Offset(lines, l) + p, lines[l][p];
    CloseIsTokenScan(lines, marks, l, p);
    WithoutOne(c, '<');
    TokenScanRefines(marks, x + 1, [c]);
    MarksKeepBrackets(lines, |lines|);
    MatchForwardSeesBrackets(text, marks, x + 1, [c]);
    LineInWhole(lines, text, l);
  }

  /** From `(`, `[` or `{`, CloseExpression answers the end of the balanced
      group that starts there and fails exactly when no such group exists. */
  lemma CloseFindsGroup(lines: seq<string>, text: string, l: nat, p: nat)
    requires l < |lines| && p < |lines[l]| && IsOpener(lines[l][p]) && text == Whole(lines)
    ensures PastCharacter(lines, Close(lines, l, p))
    ensures match Close(lines, l, p)
            case At(m, e) => l <= m && Group(text, Offset(lines, l) + p, Offset(lines, m) + e - 1)
            case NotFound => !GroupStartsAt(text, Offset(lines, l) + p)
  {
    CloseRefines(lines, text, l, p);
    ForwardFindsGroup(text, Offset(lines, l) + p);
  }

  /** CloseExpression answers `q + 1` on line `m` if and only if `q` ends the
      group that starts at `p`. */
  lemma CloseIffGroup(lines: seq<string>, text: string, l: nat, p: nat, m: nat, q: nat)
    requires l < |lines| && p < |lines[l]| && IsOpener(lines[l][p]) && text == Whole(lines)
    requires m < |lines| && q < |lines[m]|
    ensures Close(lines, l, p) == At(m, q + 1) <==> Group(text, Offset(lines, l) + p, Offset(lines, m) + q)
  {
    CloseRefines(lines, text, l, p);
    ForwardFindsGroup(text, Offset(lines, l) + p);
    var r := Close(lines, l, p);
    if Group(text, Offset(lines, l) + p, Offset(lines, m) + q) {
      OffsetInjective(lines, m, q, r.line, r.pos - 1);
    }
  }

  /** Rewriting everything that is not a bracket, and breaking the lines
      differently, does not move the answer. */
  lemma LayoutIrrelevant(lines: seq<string>, l: nat, p: nat, others: seq<string>, m: nat, q: nat)
    requires l < |lines| && p < |lines[l]| && IsOpener(lines[l][p])
    requires m < |others| && q < |others[m]| && others[m][q] == lines[l][p]
    requires SameBrackets(Whole(lines), Whole(others))
    requires Offset(lines, l) + p == Offset(others, m) + q
    ensures PastCharacter(lines, Close(lines, l, p)) && PastCharacter(others, Close(others, m, q))
    ensures Flat(lines, Close(lines, l, p)) == Flat(others, Close(others, m, q))
  {
    var text, other, at := Whole(lines), Whole(others), Offset(lines, l) + p;
    CloseRefines(lines, text, l, p);
    CloseRefines(others, other, m, q);
    MatchForwardSeesBrackets(text, other, at + 1, [text[at]]);
  }

  // ---------- the scripts' own loops ----------

  /** The pair the scanner returns: a position or -1, and the stack to go on with. */
  function EndPair(scan: Scan): (int, Option<string>) {
    match scan
    case Found(e) => (e as int, None)
    case Dead => (-1, None)
    case Open(stack) => (-1, Some(stack))
  }

  method FindEndOfExpressionInLine(line: string, startpos: nat, stack0: string)
    returns (endPos: int, stack: Option<string>)
    ensures (endPos, stack) == EndPair(ScanEnd(line, startpos, stack0))
  {
    var st := stack0;
    var i := startpos;
    while i < |line|
      invariant startpos <= i
      invariant ScanEnd(line, startpos, stack0) == ScanEnd(line, i, st)
    {
      var c := line[i];
      if IsOpener(c) {
        st := st + [c];
      } else if c == '<' {
        if i > 0 && line[i - 1] == '<' {
          if st != [] && Top(st) == '<' {
            st := Pop(st);
            if st == [] {
              return -1, None;
            }
          }
        } else if i > 0 && EndsWithOperator(line[..i]) {
          i := i + 1;
          continue;
        } else {
          st := st + ['<'];
        }
      } else if IsCloser(c) {
        st := PopTentative(st, '<');
        if st == [] {
          return -1, None;
        }
        if Matches(Top(st), c) {
          st := Pop(st);
          if st == [] {
            return i + 1, None;
          }
        } else {
          return -1, None;
        }
      } else if c == '>' {
        if i > 0 && (line[i - 1] == '-' || EndsWithOperator(line[..i - 1])) {
          i := i + 1;
          continue;
        }
        if st != [] {
          if Top(st) == '<' {
            st := Pop(st);
            if st == [] {
              return i + 1, None;
            }
          }
        }
      } else if c == ';' {
        st := PopTentative(st, '<');
        if st == [] {
          return -1, None;
        }
      }
      i := i + 1;
    }
    return -1, Some(st);
  }

  /** On failure the returned line is the one on which the scan ended. */
  method CloseExpression(lines: seq<string>, linenum: nat, pos: nat)
    returns (line: string, endLine: nat, endPos: int)
    requires linenum < |lines| && pos < |lines[linenum]|
    ensures match Close(lines, linenum, pos)
            case At(m, e) => m < |lines| && line == lines[m] && endLine == m && endPos == e
            case NotFound =>
              && endLine == |lines| && endPos == -1
              && line == if MayOpen(lines[linenum], pos)
                         then lines[StopLine(lines, linenum, ScanEnd(lines[linenum], pos, []))] else lines[linenum]
  {
    line := lines[linenum];
    if !(IsOpener(line[pos]) || line[pos] == '<') || ShiftOrCompare(line, pos) {
      return line, |lines|, -1;
    }
    var l := linenum;
    var end, stack := FindEndOfExpressionInLine(line, pos, []);
    ghost var scan := ScanEnd(line, pos, []);
    if end > -1 {
      return line, l, end;
    }
    while stack.Some? && stack.value != [] && l < |lines| - 1
      invariant l < |lines| && line == lines[l]
      invariant !scan.Found? && (end, stack) == EndPair(scan)
      invariant Close(lines, linenum, pos) == FollowForward(lines, l, scan)
      invariant StopLine(lines, linenum, ScanEnd(lines[linenum], pos, [])) == StopLine(lines, l, scan)
      decreases |lines| - l
    {
      l := l + 1;
      line := lines[l];
      ghost var before := stack.value;
      end, stack := FindEndOfExpressionInLine(line, 0, stack.value);
      scan := ScanEnd(line, 0, before);
      if end > -1 {
        return line, l, end;
      }
    }
    return line, |lines|, -1;
  }
}
