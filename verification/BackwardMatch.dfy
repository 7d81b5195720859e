/** The backward expression matcher of cpplint, and what the two matchers
    together guarantee. */
module BackwardMatch {
  import opened Text
  import opened Brackets
  import opened Lines
  import opened ForwardMatch

  /** `\s>=\s` starts at `i`. */
  predicate SpacedGreaterEqual(line: string, i: nat) {
    i + 3 < |line| && IsSpace(line[i]) && line[i + 1] == '>' && line[i + 2] == '=' && IsSpace(line[i + 3])
  }

  /** The `>` at `i` is the end of `->`, ` >= ` or `operator>`. */
  predicate OperatorGreater(line: string, i: nat)
    requires i < |line|
  {
    i > 0 && (line[i - 1] == '-' || SpacedGreaterEqual(line, i - 1) || EndsWithOperator(line[..i]))
  }

  /** How many characters one step of the backward scan consumes at `i`: an
      operator that ends at `>` and the second half of `<<` take the character
      before them along. */
  function Stride(line: string, i: nat): (r: nat)
    requires i < |line|
    ensures 1 <= r <= i + 1
  {
    if (line[i] == '>' && OperatorGreater(line, i)) || (line[i] == '<' && i > 0 && line[i - 1] == '<') then 2 else 1
  }

  /** Stands for a character that takes the one before it along. */
  const JUMP := '^'

  /** Neither character of a two-character step is a bracket or a semicolon. */
  lemma StrideSkipsPlain(line: string, i: nat)
    requires i < |line| && Stride(line, i) == 2
    ensures i > 0 && !IsBracket(line[i]) && !IsBracket(line[i - 1])
    ensures line[i] != ';' && line[i - 1] != ';'
  {
    if line[i] == '>' && EndsWithOperator(line[..i]) {
      OperatorTail(line[..i]);
    }
  }

  /** What the character at `i` counts as when scanning backwards. */
  function BackToken(line: string, i: nat): (t: char)
    requires i < |line|
    ensures IsBracket(t) || IsBracket(line[i]) ==> t == line[i]
    ensures t == ';' <==> line[i] == ';'
    ensures t == JUMP ==> i > 0 && !IsBracket(line[i - 1]) && line[i - 1] != ';'
  {
    if Stride(line, i) == 2 then StrideSkipsPlain(line, i); JUMP
    else if IsBracket(line[i]) || line[i] == ';' || line[i] == '<' || line[i] == '>' then line[i]
    else PLAIN
  }

  function BackMarkLine(line: string): (r: string)
    ensures |r| == |line|
  {
    seq(|line|, i requires 0 <= i < |line| => BackToken(line, i))
  }

  function BackMarked(lines: seq<string>): (r: seq<string>)
    ensures |r| == |lines|
  {
    seq(|lines|, l requires 0 <= l < |lines| => BackMarkLine(lines[l]))
  }

  /** What the file's characters count as, in one text. */
  function BackMarks(lines: seq<string>): string {
    Whole(BackMarked(lines))
  }

  /** One step of the matcher at a token that stands at `at`. */
  function BackStep(token: char, at: nat, stack: string): Scan {
    if IsCloser(token) || token == '>' then Open(stack + [token])
    else if token == '<' then
      if stack == [] || Top(stack) != '>' then Open(stack)
      else if |stack| == 1 then Found(at)
      else Open(Pop(stack))
    else if IsOpener(token) then
      var st := DropTentative(stack, '>');
      if st == [] || !Matches(token, Top(st)) then Dead
      else if |st| == 1 then Found(at)
      else Open(Pop(st))
    else if token == ';' then
      var st := DropTentative(stack, '>');
      if st == [] then Dead else Open(st)
    else Open(stack)
  }

  /** Scans the characters before `i`, last one first. */
  function ScanStart(line: string, i: nat, stack: string): Scan
    requires i <= |line|
  {
    if i == 0 then Open(stack)
    else if BackToken(line, i - 1) == JUMP then ScanStart(line, i - 2, stack)
    else
      match BackStep(BackToken(line, i - 1), i - 1, stack)
      case Open(s) => ScanStart(line, i - 1, s)
      case r => r
  }

  function FollowBackward(lines: seq<string>, l: nat, scan: Scan): Place
    requires l < |lines|
  {
    match scan
    case Found(p) => At(l, p)
    case Dead => NotFound
    case Open(stack) =>
      if stack == [] || l == 0 then NotFound
      else FollowBackward(lines, l - 1, ScanStart(lines[l - 1], |lines[l - 1]|, stack))
  }

  /** The line on which such a scan ends. */
  function FirstLine(lines: seq<string>, l: nat, scan: Scan): (r: nat)
    requires l < |lines|
    ensures r <= l
  {
    match scan
    case Open(stack) =>
      if stack == [] || l == 0 then l
      else FirstLine(lines, l - 1, ScanStart(lines[l - 1], |lines[l - 1]|, stack))
    case _ => l
  }

  /** The answer of ReverseCloseExpression: the position of the opening end. */
  function ReverseClose(lines: seq<string>, l: nat, p: nat): Place
    requires l < |lines| && p < |lines[l]|
  {
    var c := lines[l][p];
    if !(IsCloser(c) || c == '>') then NotFound
    else FollowBackward(lines, l, ScanStart(lines[l], p + 1, []))
  }

  // ---------- the machine on the whole text ----------

  function BackScan(marks: string, x: nat, stack: string): Option<nat>
    requires x <= |marks|
  {
    if x == 0 then None
    else if marks[x - 1] == JUMP then (if x == 1 then None else BackScan(marks, x - 2, stack))
    else
      match BackStep(marks[x - 1], x - 1, stack)
      case Found(p) => Some(p)
      case Dead => None
      case Open(s) => BackScan(marks, x - 1, s)
  }

  lemma BackStepKeepsStack(token: char, at: nat, other: nat, stack: string)
    requires stack != []
    ensures match BackStep(token, at, stack)
            case Found(p) => p == at && BackStep(token, other, stack) == Found(other)
            case Dead => BackStep(token, other, stack) == Dead
            case Open(s) => s != [] && BackStep(token, other, stack) == Open(s)
  {
  }

  lemma {:induction false} ScanStartIsBackScan(marks: string, off: nat, line: string, i: nat, stack: string)
    requires off + |line| <= |marks| && marks[off..off + |line|] == BackMarkLine(line)
    requires i <= |line| && stack != []
    ensures match ScanStart(line, i, stack)
            case Found(p) => p < i && BackScan(marks, off + i, stack) == Some(off + p)
            case Dead => BackScan(marks, off + i, stack) == None
            case Open(s) => s != [] && BackScan(marks, off + i, stack) == BackScan(marks, off, s)
  {
    if i > 0 {
      var token := BackToken(line, i - 1);
      assert marks[off + i - 1] == BackMarkLine(line)[i - 1] == token;
      if token == JUMP {
        ScanStartIsBackScan(marks, off, line, i - 2, stack);
      } else {
        BackStepKeepsStack(token, i - 1, off + i - 1, stack);
        var step := BackStep(token, i - 1, stack);
        if step.Open? {
          ScanStartIsBackScan(marks, off, line, i - 1, step.stack);
        }
      }
    }
  }

  lemma {:induction false} OffsetBackMarked(lines: seq<string>, l: nat)
    requires l <= |lines|
    ensures Offset(BackMarked(lines), l) == Offset(lines, l)
  {
    if l > 0 {
      OffsetBackMarked(lines, l - 1);
    }
  }

  lemma LineInBackMarks(lines: seq<string>, marks: string, l: nat)
    requires l < |lines| && marks == BackMarks(lines)
    ensures Offset(lines, l) + |lines[l]| <= |marks|
    ensures marks[Offset(lines, l)..Offset(lines, l) + |lines[l]|] == BackMarkLine(lines[l])
    ensures Offset(lines, l + 1) == Offset(lines, l) + |lines[l]|
  {
    LineInWhole(BackMarked(lines), marks, l);
    OffsetBackMarked(lines, l);
    OffsetBackMarked(lines, l + 1);
  }

  /** A place that is a character of the file. */
  predicate OnCharacter(lines: seq<string>, place: Place) {
    place.At? ==> place.line < |lines| && place.pos < |lines[place.line]|
  }

  lemma {:induction false} FollowIsBackScan(lines: seq<string>, marks: string, l: nat, i: nat, stack: string)
    requires l < |lines| && i <= |lines[l]| && stack != [] && marks == BackMarks(lines)
    ensures Offset(lines, l) + i <= |marks|
    ensures var r := FollowBackward(lines, l, ScanStart(lines[l], i, stack));
            && (r.At? ==> r.line <= l)
            && OnCharacter(lines, r) && Flat(lines, r) == BackScan(marks, Offset(lines, l) + i, stack)
    decreases l
  {
    LineInBackMarks(lines, marks, l);
    ScanStartIsBackScan(marks, Offset(lines, l), lines[l], i, stack);
    var scan := ScanStart(lines[l], i, stack);
    if scan.Open? && l > 0 {
      LineInBackMarks(lines, marks, l - 1);
      FollowIsBackScan(lines, marks, l - 1, |lines[l - 1]|, scan.stack);
    }
  }

  /** Started at a bracket or at a `>` that is no operator, ReverseCloseExpression
      is the machine on the whole text. */
  lemma ReverseCloseIsBackScan(lines: seq<string>, marks: string, l: nat, p: nat)
    requires l < |lines| && p < |lines[l]| && marks == BackMarks(lines)
    requires IsCloser(lines[l][p]) || BackToken(lines[l], p) == '>'
    ensures var r, x := ReverseClose(lines, l, p), Offset(lines, l) + p;
            && x < |marks| && marks[x] == lines[l][p]
            && (r.At? ==> r.line <= l)
            && OnCharacter(lines, r) && Flat(lines, r) == BackScan(marks, x, [marks[x]])
  {
    var line, c := lines[l], lines[l][p];
    LineInBackMarks(lines, marks, l);
    assert marks[Offset(lines, l) + p] == BackMarkLine(line)[p] == BackToken(line, p) == c;
    var none: string := [];
    assert none + [c] == [c];
    assert ScanStart(line, p + 1, none) == ScanStart(line, p, [c]);
    FollowIsBackScan(lines, marks, l, p, [c]);
  }

  // ---------- brackets ----------

  /** A character that is jumped over is no bracket and no semicolon. */
  ghost predicate JumpsOverPlain(marks: string) {
    forall x :: 0 <= x < |marks| && marks[x] == JUMP ==> x > 0 && !IsBracket(marks[x - 1]) && marks[x - 1] != ';'
  }

  lemma OpenerMatch(marks: string, x: nat, below: string, top: char)
    requires 0 < x <= |marks| && IsOpener(marks[x - 1])
    ensures MatchBackward(marks, x, below + [top])
         == if !Matches(marks[x - 1], top) then None
            else if below == [] then Some(x - 1)
            else MatchBackward(marks, x - 1, below)
  {
    assert (below + [top])[..|below|] == below;
  }

  lemma OpenerStepRefines(marks: string, x: nat, base: string, stack: string) returns (t: string)
    requires 0 < x <= |marks| && IsOpener(marks[x - 1]) && stack != [] && stack[0] != '>'
    ensures var plain := MatchBackward(marks, x, Without(stack, '>'));
            match BackStep(marks[x - 1], x - 1, base + stack)
            case Found(p) => base == [] && p == x - 1 && plain == Some(p)
            case Dead => plain == None
            case Open(s) =>
              && s == base + t
              && (t == [] ==> base != [] && plain == Some(x - 1))
              && (t != [] ==> t[0] != '>' && plain == MatchBackward(marks, x - 1, Without(t, '>')))
  {
    var top;
    top, t := BracketMet(base, stack, '>');
    OpenerMatch(marks, x, Without(t, '>'), top);
    AboveBase(base, t + [top]);
    assert Pop(t + [top]) == t;
  }

  /** Above any `base`, a stack whose bottom is a real bracket does what the plain
      matcher does: tentative brackets change nothing. */
  lemma BackStepRefines(marks: string, x: nat, base: string, stack: string) returns (t: string)
    requires 0 < x <= |marks| && marks[x - 1] != JUMP && stack != [] && stack[0] != '>'
    ensures var plain := MatchBackward(marks, x, Without(stack, '>'));
            match BackStep(marks[x - 1], x - 1, base + stack)
            case Found(p) => base == [] && p == x - 1 && plain == Some(p)
            case Dead => plain == None
            case Open(s) =>
              && s == base + t
              && (t == [] ==> base != [] && plain == Some(x - 1))
              && (t != [] ==> t[0] != '>' && plain == MatchBackward(marks, x - 1, Without(t, '>')))
  {
    var c := marks[x - 1];
    if IsOpener(c) {
      t := OpenerStepRefines(marks, x, base, stack);
    } else {
      t := stack;
      if IsCloser(c) || c == '>' {
        t := stack + [c];
        assert (base + stack) + [c] == base + t;
        WithoutPush(stack, '>', c);
      } else if c == '<' && Top(stack) == '>' {
        t := Pop(stack);
        assert Pop(base + stack) == base + t;
        WithoutPop(stack, '>');
      } else if c == ';' {
        DropKeepsRest(stack, '>');
        DropAbove(base, stack, '>');
        t := DropTentative(stack, '>');
      }
      assert Top(base + stack) == Top(stack);
    }
  }

  lemma {:induction false} BackScanRefines(marks: string, x: nat, base: string, stack: string)
    requires JumpsOverPlain(marks) && x <= |marks| && stack != [] && stack[0] != '>'
    ensures match MatchBackward(marks, x, Without(stack, '>'))
            case Some(p) =>
              && p < x
              && BackScan(marks, x, base + stack) == if base == [] then Some(p) else BackScan(marks, p, base)
            case None => BackScan(marks, x, base + stack) == None
  {
    if x > 0 {
      if marks[x - 1] == JUMP {
        var plain := Without(stack, '>');
        assert MatchBackward(marks, x, plain) == MatchBackward(marks, x - 1, plain) == MatchBackward(marks, x - 2, plain);
        BackScanRefines(marks, x - 2, base, stack);
      } else {
        var t := BackStepRefines(marks, x, base, stack);
        var step := BackStep(marks[x - 1], x - 1, base + stack);
        if step.Open? && t != [] {
          BackScanRefines(marks, x - 1, base, t);
        }
        assert base + [] == base;
      }
    }
  }

  lemma {:induction false} MatchBackwardSeesBrackets(text: string, other: string, i: nat, stack: string)
    requires SameBrackets(text, other) && i <= |text|
    ensures MatchBackward(text, i, stack) == MatchBackward(other, i, stack)
  {
    if i > 0 {
      if IsCloser(text[i - 1]) {
        MatchBackwardSeesBrackets(text, other, i - 1, stack + [text[i - 1]]);
      } else if IsOpener(text[i - 1]) {
        if |stack| > 1 {
          MatchBackwardSeesBrackets(text, other, i - 1, stack[..|stack| - 1]);
        }
      } else {
        MatchBackwardSeesBrackets(text, other, i - 1, stack);
      }
    }
  }

  lemma {:induction false} BackMarksKeepBrackets(lines: seq<string>, n: nat)
    requires n <= |lines|
    ensures SameBrackets(Joined(lines, n), Joined(BackMarked(lines), n))
    ensures JumpsOverPlain(Joined(BackMarked(lines), n))
    ensures forall i :: 0 <= i < |Joined(lines, n)| ==>
              (Joined(lines, n)[i] == ';' <==> Joined(BackMarked(lines), n)[i] == ';')
  {
    if n > 0 {
      BackMarksKeepBrackets(lines, n - 1);
      var line, before := lines[n - 1], Joined(BackMarked(lines), n - 1);
      var marks := BackMarkLine(line);
      assert BackMarked(lines)[n - 1] == marks;
      forall i | 0 <= i < |line|
        ensures marks[i] == line[i] || (!IsBracket(line[i]) && !IsBracket(marks[i]))
        ensures marks[i] == ';' <==> line[i] == ';'
        ensures marks[i] == JUMP ==> i > 0 && !IsBracket(marks[i - 1]) && marks[i - 1] != ';'
      {
        assert marks[i] == BackToken(line, i);
        assert i > 0 ==> marks[i - 1] == BackToken(line, i - 1);
      }
      forall x | |before| <= x < |before + marks| && (before + marks)[x] == JUMP
        ensures x > 0 && !IsBracket((before + marks)[x - 1]) && (before + marks)[x - 1] != ';'
      {
        assert marks[x - |before|] == JUMP;
      }
    }
  }

  /** From a bracket, ReverseCloseExpression computes what the plain matcher
      computes on the whole text. */
  lemma ReverseCloseRefines(lines: seq<string>, text: string, l: nat, p: nat)
    requires l < |lines| && p < |lines[l]| && IsCloser(lines[l][p]) && text == Whole(lines)
    ensures var r, x := ReverseClose(lines, l, p), Offset(lines, l) + p;
            && x < |text| && text[x] == lines[l][p]
            && (r.At? ==> r.line <= l)
            && OnCharacter(lines, r) && Flat(lines, r) == MatchBackward(text, x, [text[x]])
  {
    var marks, x, c := BackMarks(lines), Offset(lines, l) + p, lines[l][p];
    ReverseCloseIsBackScan(lines, marks, l, p);
    BackMarksKeepBrackets(lines, |lines|);
    WithoutOne(c, '>');
    var none: string := [];
    BackScanRefines(marks, x, none, [c]);
    assert none + [c] == [c];
    MatchBackwardSeesBrackets(text, marks, x, [c]);
    LineInWhole(lines, text, l);
  }

  /** From `)`, `]` or `}`, ReverseCloseExpression answers the start of the
      balanced group that ends there and fails exactly when there is none. */
  lemma ReverseCloseFindsGroup(lines: seq<string>, text: string, l: nat, p: nat)
    requires l < |lines| && p < |lines[l]| && IsCloser(lines[l][p]) && text == Whole(lines)
    ensures OnCharacter(lines, ReverseClose(lines, l, p))
    ensures match ReverseClose(lines, l, p)
            case At(m, s) => m <= l && Group(text, Offset(lines, m) + s, Offset(lines, l) + p)
            case NotFound => !GroupEndsAt(text, Offset(lines, l) + p)
  {
    ReverseCloseRefines(lines, text, l, p);
    BackwardFindsGroup(text, Offset(lines, l) + p);
  }

  lemma ReverseCloseIffGroup(lines: seq<string>, text: string, l: nat, p: nat, m: nat, q: nat)
    requires l < |lines| && p < |lines[l]| && text == Whole(lines)
    requires m < |lines| && q < |lines[m]| && IsCloser(lines[m][q])
    ensures ReverseClose(lines, m, q) == At(l, p) <==> Group(text, Offset(lines, l) + p, Offset(lines, m) + q)
  {
    ReverseCloseRefines(lines, text, m, q);
    BackwardFindsGroup(text, Offset(lines, m) + q);
    var r := ReverseClose(lines, m, q);
    if Group(text, Offset(lines, l) + p, Offset(lines, m) + q) {
      OffsetInjective(lines, l, p, r.line, r.pos);
    }
  }

  /** Forward and backward matching undo each other across lines, whatever
      tentative brackets, operators and semicolons lie between. */
  lemma ForwardBackwardInverse(lines: seq<string>, l: nat, p: nat, m: nat, q: nat)
    requires l < |lines| && p < |lines[l]| && IsOpener(lines[l][p])
    requires m < |lines| && q < |lines[m]|
    ensures Close(lines, l, p) == At(m, q + 1) <==> IsCloser(lines[m][q]) && ReverseClose(lines, m, q) == At(l, p)
  {
    var text := Whole(lines);
    CloseIffGroup(lines, text, l, p, m, q);
    LineInWhole(lines, text, m);
    if IsCloser(lines[m][q]) {
      ReverseCloseIffGroup(lines, text, l, p, m, q);
    }
  }

  lemma {:induction false} BackAngleScan(marks: string, x: nat, stack: string)
    requires x <= |marks| && stack != [] && stack[0] == '>'
    ensures BackScan(marks, x, stack).Some? ==>
              var p := BackScan(marks, x, stack).value; p < x && marks[p] == '<'
  {
    if x > 0 {
      if marks[x - 1] == JUMP {
        if x > 1 {
          BackAngleScan(marks, x - 2, stack);
        }
      } else {
        DropKeepsRest(stack, '>');
        var step := BackStep(marks[x - 1], x - 1, stack);
        if step.Open? {
          BackAngleScan(marks, x - 1, step.stack);
        }
      }
    }
  }

  /** From a `>` that is no operator the backward answer is always a `<`. */
  lemma ReverseCloseAngle(lines: seq<string>, m: nat, q: nat)
    requires m < |lines| && q < |lines[m]| && lines[m][q] == '>' && !OperatorGreater(lines[m], q)
    ensures OnCharacter(lines, ReverseClose(lines, m, q))
    ensures match ReverseClose(lines, m, q) case At(l, p) => lines[l][p] == '<' case NotFound => true
  {
    var marks := BackMarks(lines);
    ReverseCloseIsBackScan(lines, marks, m, q);
    BackAngleScan(marks, Offset(lines, m) + q, ['>']);
    var r := ReverseClose(lines, m, q);
    if r.At? {
      LineInBackMarks(lines, marks, r.line);
      assert marks[Offset(lines, r.line) + r.pos] == BackMarkLine(lines[r.line])[r.pos] == BackToken(lines[r.line], r.pos);
    }
  }

  /** The same without naming the closing bracket, for every end position but the
      `>` of an operator. */
  lemma InverseUnlessOperator(lines: seq<string>, l: nat, p: nat, m: nat, q: nat)
    requires l < |lines| && p < |lines[l]| && IsOpener(lines[l][p])
    requires m < |lines| && q < |lines[m]| && !(lines[m][q] == '>' && OperatorGreater(lines[m], q))
    ensures Close(lines, l, p) == At(m, q + 1) <==> ReverseClose(lines, m, q) == At(l, p)
  {
    ForwardBackwardInverse(lines, l, p, m, q);
    if lines[m][q] == '>' {
      ReverseCloseAngle(lines, m, q);
    }
  }

  // ---------- a `>` that is an operator's ----------

  /** A token that does something to an empty stack. */
  predicate DecidesBack(token: char) {
    IsBracket(token) || token == '>' || token == ';'
  }

  /** One past the last such token before `i`, or 0; characters that are taken along
      are stepped over. */
  function PrevDecisive(line: string, i: nat): (s: nat)
    requires i <= |line|
    ensures s <= i
    ensures s > 0 ==> DecidesBack(BackToken(line, s - 1))
  {
    if i == 0 then 0
    else if BackToken(line, i - 1) == JUMP then PrevDecisive(line, i - 2)
    else if DecidesBack(BackToken(line, i - 1)) then i
    else PrevDecisive(line, i - 1)
  }

  lemma {:induction false} EmptyStackSkipsBack(line: string, i: nat)
    requires i <= |line|
    ensures ScanStart(line, i, []) == ScanStart(line, PrevDecisive(line, i), [])
  {
    if i > 0 {
      var token := BackToken(line, i - 1);
      if token == JUMP {
        EmptyStackSkipsBack(line, i - 2);
      } else if !DecidesBack(token) {
        assert BackStep(token, i - 1, []) == Open([]);
        EmptyStackSkipsBack(line, i - 1);
      }
    }
  }

  lemma OperatorSkips(line: string, q: nat)
    requires q < |line| && line[q] == '>' && OperatorGreater(line, q)
    ensures ScanStart(line, q + 1, []) == ScanStart(line, PrevDecisive(line, q - 1), [])
  {
    assert BackToken(line, q) == JUMP;
    EmptyStackSkipsBack(line, q - 1);
  }

  lemma DecisiveBackAnswer(lines: seq<string>, m: nat, s: nat)
    requires m < |lines| && s <= |lines[m]| && (s > 0 ==> DecidesBack(BackToken(lines[m], s - 1)))
    ensures FollowBackward(lines, m, ScanStart(lines[m], s, []))
         == if s == 0 || IsOpener(lines[m][s - 1]) || lines[m][s - 1] == ';' then NotFound
            else ReverseClose(lines, m, s - 1)
    ensures s > 0 && lines[m][s - 1] == '>' ==> !OperatorGreater(lines[m], s - 1)
  {
  }

  /** From the `>` of an operator, ReverseCloseExpression answers for the last closing
      bracket or plain `>` before it on the line, unless an opening bracket or a
      semicolon comes first. */
  lemma OperatorAnswer(lines: seq<string>, m: nat, q: nat, s: nat)
    requires m < |lines| && q < |lines[m]| && lines[m][q] == '>' && OperatorGreater(lines[m], q)
    requires s == PrevDecisive(lines[m], q - 1)
    ensures ReverseClose(lines, m, q)
         == if s == 0 || IsOpener(lines[m][s - 1]) || lines[m][s - 1] == ';' then NotFound
            else ReverseClose(lines, m, s - 1)
    ensures s > 0 && lines[m][s - 1] == '>' ==> !OperatorGreater(lines[m], s - 1)
  {
    OperatorSkips(lines[m], q);
    DecisiveBackAnswer(lines, m, s);
  }

  /** The two matchers are inverse at an end position if and only if it is not the
      `>` of an operator that answers for the bracket in question. */
  lemma InverseExactly(lines: seq<string>, l: nat, p: nat, m: nat, q: nat)
    requires l < |lines| && p < |lines[l]| && IsOpener(lines[l][p]) && m < |lines| && q < |lines[m]|
    ensures (Close(lines, l, p) == At(m, q + 1) <==> ReverseClose(lines, m, q) == At(l, p))
       <==> !(lines[m][q] == '>' && OperatorGreater(lines[m], q)
              && var s := PrevDecisive(lines[m], q - 1); s > 0 && Close(lines, l, p) == At(m, s))
  {
    if lines[m][q] == '>' && OperatorGreater(lines[m], q) {
      var s := PrevDecisive(lines[m], q - 1);
      ForwardBackwardInverse(lines, l, p, m, q);
      OperatorAnswer(lines, m, q, s);
      if s > 0 {
        ForwardBackwardInverse(lines, l, p, m, s - 1);
        if lines[m][s - 1] == '>' {
          ReverseCloseAngle(lines, m, s - 1);
        }
      }
    } else {
      InverseUnlessOperator(lines, l, p, m, q);
    }
  }

  lemma ArrowClosed()
    ensures Close(["(a)->"], 0, 0) == At(0, 3)
  {
    var line := "(a)->";
    var none: string := [];
    assert Token(line, 0) == '(' && Token(line, 1) == PLAIN && Token(line, 2) == ')';
    assert none + ['('] == ['('] && Step('(', 1, none) == Open(['(']);
    assert Step(PLAIN, 2, ['(']) == Open(['(']) && Step(')', 3, ['(']) == Found(3);
    assert ScanEnd(line, 0, none) == ScanEnd(line, 1, ['(']) == ScanEnd(line, 2, ['(']);
  }

  /** Started at the `>` of an arrow, the backward matcher answers for a bracket
      that is closed before it. */
  lemma ArrowAnswersElsewhere()
    ensures ReverseClose(["(a)->"], 0, 4) == At(0, 0)
    ensures Close(["(a)->"], 0, 0) == At(0, 3)
  {
    var lines := ["(a)->"];
    ArrowClosed();
    ForwardBackwardInverse(lines, 0, 0, 0, 2);
    assert lines[0][3] == '-' && BackToken(lines[0], 2) == ')';
    OperatorAnswer(lines, 0, 4, 3);
  }

  // ---------- the scripts' own loops ----------

  method FindStartOfExpressionInLine(line: string, endpos: int, stack0: string)
    returns (startPos: int, stack: Option<string>)
    requires -1 <= endpos < |line|
    ensures (startPos, stack) == EndPair(ScanStart(line, endpos + 1, stack0))
  {
    var st := stack0;
    var i := endpos;
    while i >= 0
      invariant -1 <= i < |line|
      invariant ScanStart(line, endpos + 1, stack0) == ScanStart(line, i + 1, st)
    {
      var c := line[i];
      if IsCloser(c) {
        st := st + [c];
      } else if c == '>' {
        if i > 0 && (line[i - 1] == '-' || SpacedGreaterEqual(line, i - 1) || EndsWithOperator(line[..i])) {
          i := i - 1;
        } else {
          st := st + ['>'];
        }
      } else if c == '<' {
        if i > 0 && line[i - 1] == '<' {
          i := i - 1;
        } else if st != [] && Top(st) == '>' {
          st := Pop(st);
          if st == [] {
            return i, None;
          }
        }
      } else if IsOpener(c) {
        st := PopTentative(st, '>');
        if st == [] {
          return -1, None;
        }
        if Matches(c, Top(st)) {
          st := Pop(st);
          if st == [] {
            return i, None;
          }
        } else {
          return -1, None;
        }
      } else if c == ';' {
        st := PopTentative(st, '>');
        if st == [] {
          return -1, None;
        }
      }
      i := i - 1;
    }
    return -1, Some(st);
  }

  /** On failure the returned line is the one on which the scan ended. */
  method ReverseCloseExpression(lines: seq<string>, linenum: nat, pos: nat)
    returns (line: string, startLine: nat, startPos: int)
    requires linenum < |lines| && pos < |lines[linenum]|
    ensures match ReverseClose(lines, linenum, pos)
            case At(m, p) => m < |lines| && line == lines[m] && startLine == m && startPos == p
            case NotFound =>
              && startLine == 0 && startPos == -1
              && line == if IsCloser(lines[linenum][pos]) || lines[linenum][pos] == '>'
                         then lines[FirstLine(lines, linenum, ScanStart(lines[linenum], pos + 1, []))] else lines[linenum]
  {
    line := lines[linenum];
    if !(IsCloser(line[pos]) || line[pos] == '>') {
      return line, 0, -1;
    }
    var l := linenum;
    var start, stack := FindStartOfExpressionInLine(line, pos, []);
    ghost var scan := ScanStart(line, pos + 1, []);
    if start > -1 {
      return line, l, start;
    }
    while stack.Some? && stack.value != [] && l > 0
      invariant l < |lines| && line == lines[l]
      invariant !scan.Found? && (start, stack) == EndPair(scan)
      invariant ReverseClose(lines, linenum, pos) == FollowBackward(lines, l, scan)
      invariant FirstLine(lines, linenum, ScanStart(lines[linenum], pos + 1, [])) == FirstLine(lines, l, scan)
      decreases l
    {
      l := l - 1;
      line := lines[l];
      ghost var before := stack.value;
      start, stack := FindStartOfExpressionInLine(line, |line| - 1, stack.value);
      scan := ScanStart(line, |line|, before);
      if start > -1 {
        return line, l, start;
      }
    }
    return line, 0, -1;
  }
}
