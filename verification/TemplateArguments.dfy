/** What the two matchers say about `<` and `>`: the text they accept as a template
    argument list, and what must be accepted. */
module TemplateArguments {
  import opened Text
  import opened Brackets
  import opened Lines
  import opened ForwardMatch
  import opened BackwardMatch

  /** The brackets open at `j` when reading starts at `i`; None after a mismatch. */
  ghost function Depth(text: string, i: nat, j: nat): Option<string>
    requires i <= j <= |text|
    decreases j
  {
    if i == j then Some([])
    else
      var c := text[j - 1];
      match Depth(text, i, j - 1)
      case None => None
      case Some(open) =>
        if IsOpener(c) then Some(open + [c])
        else if IsCloser(c) then
          if open != [] && Matches(Top(open), c) then Some(Pop(open)) else None
        else Some(open)
  }

  lemma {:induction false} DepthAcrossBalanced(text: string, i: nat, k: nat, j: nat, open: string)
    requires i <= k <= j <= |text| && Balanced(text, k, j)
    requires Depth(text, i, k) == Some(open)
    ensures Depth(text, i, j) == Some(open)
    decreases j - k
  {
    if k < j {
      if !IsBracket(text[k]) {
        DepthAcrossBalanced(text, i, k + 1, j, open);
      } else {
        var m :| k < m < j && Matches(text[k], text[m])
                 && Balanced(text, k + 1, m) && Balanced(text, m + 1, j);
        DepthAcrossBalanced(text, i, k + 1, m, open + [text[k]]);
        assert Pop(open + [text[k]]) == open;
        DepthAcrossBalanced(text, i, m + 1, j, open);
      }
    }
  }

  lemma GroupIsBalanced(text: string, k: nat, q: nat)
    requires Group(text, k, q)
    ensures Balanced(text, k, q + 1)
  {
    assert Balanced(text, q + 1, q + 1);
  }

  /** Everything since the innermost open bracket, or since the start, is balanced. */
  lemma {:induction false} BalancedSinceTop(text: string, i: nat, j: nat) returns (k: int)
    requires i <= j <= |text| && Depth(text, i, j).Some?
    ensures var open := Depth(text, i, j).value;
            if open == [] then Balanced(text, i, j)
            else i <= k < j && text[k] == Top(open) && Depth(text, i, k) == Some(Pop(open)) && Balanced(text, k + 1, j)
    decreases j
  {
    k := -1;
    if i < j {
      var c := text[j - 1];
      k := BalancedSinceTop(text, i, j - 1);
      if IsOpener(c) {
        var open := Depth(text, i, j - 1).value;
        k := j - 1;
        assert Pop(open + [c]) == open;
      } else if IsCloser(c) {
        GroupIsBalanced(text, k, j - 1);
        var g := k;
        k := BalancedSinceTop(text, i, g);
        BalancedConcat(text, if Depth(text, i, g) == Some([]) then i else k + 1, g, j);
      } else {
        assert Balanced(text, j, j);
        BalancedConcat(text, if Depth(text, i, j) == Some([]) then i else k + 1, j - 1, j);
      }
    }
  }

  lemma DepthZeroIffBalanced(text: string, i: nat, j: nat)
    requires i <= j <= |text|
    ensures Depth(text, i, j) == Some([]) <==> Balanced(text, i, j)
  {
    if Balanced(text, i, j) {
      DepthAcrossBalanced(text, i, i, j, []);
    }
    if Depth(text, i, j) == Some([]) {
      var _ := BalancedSinceTop(text, i, j);
    }
  }

  lemma {:induction false} DepthFrom(marks: string, i: nat, k: nat, x: nat)
    requires i <= k <= x <= |marks| && Balanced(marks, i, k)
    ensures Depth(marks, i, x) == Depth(marks, k, x)
    decreases x
  {
    if x == k {
      DepthZeroIffBalanced(marks, i, k);
    } else {
      DepthFrom(marks, i, k, x - 1);
    }
  }

  lemma {:induction false} BalancedSeesBrackets(text: string, other: string, i: nat, j: nat)
    requires i <= j <= |text| && SameBrackets(text, other) && Balanced(text, i, j)
    ensures Balanced(other, i, j)
    decreases j - i
  {
    if i < j {
      if !IsBracket(text[i]) {
        BalancedSeesBrackets(text, other, i + 1, j);
      } else {
        var k :| i < k < j && Matches(text[i], text[k])
                 && Balanced(text, i + 1, k) && Balanced(text, k + 1, j);
        BalancedSeesBrackets(text, other, i + 1, k);
        BalancedSeesBrackets(text, other, k + 1, j);
        assert Matches(other[i], other[k]);
      }
    }
  }

  // ---------- what is accepted from `<` on ----------

  /** No semicolon in `marks[i..j]` lies outside all brackets opened since `i`. */
  ghost predicate NoTopSemicolon(marks: string, i: nat, j: nat)
    requires i <= j <= |marks|
    decreases j
  {
    i == j || (NoTopSemicolon(marks, i, j - 1) && !(marks[j - 1] == ';' && Depth(marks, i, j - 1) == Some([])))
  }

  lemma {:induction false} SemicolonIsNested(marks: string, i: nat, j: nat, k: nat)
    requires i <= k < j <= |marks| && NoTopSemicolon(marks, i, j) && marks[k] == ';'
    ensures Depth(marks, i, k) != Some([])
    decreases j
  {
    if k < j - 1 {
      SemicolonIsNested(marks, i, j - 1, k);
    }
  }

  /** The state of a scan that began with `<` just before `start`. */
  ghost predicate InAngle(marks: string, start: nat, x: nat, stack: string)
    requires start <= x <= |marks|
  {
    && stack != [] && stack[0] == '<'
    && Depth(marks, start, x) == Some(Without(stack, '<'))
    && NoTopSemicolon(marks, start, x)
  }

  lemma AngleStep(marks: string, start: nat, x: nat, stack: string)
    requires start <= x < |marks| && InAngle(marks, start, x, stack)
    ensures match Step(marks[x], x + 1, stack)
            case Found(e) => e == x + 1 && marks[x] == '>' && Depth(marks, start, x) == Some([])
            case Dead => true
            case Open(s) => InAngle(marks, start, x + 1, s)
  {
    var c := marks[x];
    DropKeepsRest(stack, '<');
    WithoutPush(stack, '<', c);
    WithoutPop(stack, '<');
    var st := DropTentative(stack, '<');
    if st != [] {
      WithoutPop(st, '<');
      assert Pop(Without(Pop(st), '<') + [Top(st)]) == Without(Pop(st), '<');
    }
  }

  lemma {:induction false} AngleScan(marks: string, start: nat, x: nat, stack: string)
    requires start <= x <= |marks| && InAngle(marks, start, x, stack) && TokenScan(marks, x, stack).Some?
    ensures var e := TokenScan(marks, x, stack).value;
            && x < e <= |marks| && marks[e - 1] == '>'
            && Depth(marks, start, e - 1) == Some([]) && NoTopSemicolon(marks, start, e - 1)
    decreases |marks| - x
  {
    AngleStep(marks, start, x, stack);
    var step := Step(marks[x], x + 1, stack);
    if step.Open? {
      AngleScan(marks, start, x + 1, step.stack);
    }
  }

  /** `text[first..last]` is balanced and every semicolon in it lies inside brackets. */
  ghost predicate ArgumentText(text: string, first: nat, last: nat) {
    && first <= last <= |text| && Balanced(text, first, last)
    && forall k :: first <= k < last && text[k] == ';' ==> !Balanced(text, first, k)
  }

  lemma AngleIsArgumentText(lines: seq<string>, text: string, marks: string, first: nat, last: nat)
    requires text == Whole(lines) && marks == Marks(lines)
    requires first <= last <= |marks| && Depth(marks, first, last) == Some([]) && NoTopSemicolon(marks, first, last)
    ensures ArgumentText(text, first, last)
  {
    MarksKeepBrackets(lines, |lines|);
    DepthZeroIffBalanced(marks, first, last);
    BalancedSeesBrackets(marks, text, first, last);
    forall k | first <= k < last && text[k] == ';'
      ensures !Balanced(text, first, k)
    {
      SemicolonIsNested(marks, first, last, k);
      DepthZeroIffBalanced(marks, first, k);
      if Balanced(text, first, k) {
        BalancedSeesBrackets(text, marks, first, k);
      }
    }
  }

  /** The answer stands just past a `>`; the text between is balanced in `()[]{}` and
      every semicolon in it lies inside one of those brackets. */
  ghost predicate EndsArguments(lines: seq<string>, text: string, l: nat, p: nat, answer: Place)
    requires l < |lines| && p < |lines[l]|
  {
    match answer
    case At(m, e) =>
      && l <= m < |lines| && 0 < e <= |lines[m]| && lines[m][e - 1] == '>'
      && ArgumentText(text, Offset(lines, l) + p + 1, Offset(lines, m) + e - 1)
    case NotFound => true
  }

  lemma AngleEndsArguments(lines: seq<string>, marks: string, l: nat, p: nat, r: Place)
    requires l < |lines| && p < |lines[l]| && marks == Marks(lines)
    requires Offset(lines, l) + p < |marks| && r.At? && l <= r.line && PastCharacter(lines, r)
    requires Flat(lines, r) == TokenScan(marks, Offset(lines, l) + p + 1, ['<'])
    ensures EndsArguments(lines, Whole(lines), l, p, r)
  {
    var first := Offset(lines, l) + p + 1;
    var none: string := [];
    WithoutPush(none, '<', '<');
    assert none + ['<'] == ['<'];
    AngleScan(marks, first, first, ['<']);
    AngleIsArgumentText(lines, Whole(lines), marks, first, Offset(lines, r.line) + r.pos - 1);
    LineInMarks(lines, marks, r.line);
    assert MarkLine(lines[r.line])[r.pos - 1] == marks[Offset(lines, r.line) + r.pos - 1] == '>';
  }

  /** A successful scan from a `<` that is pushed. */
  lemma ScannedAngle(lines: seq<string>, text: string, l: nat, p: nat)
    requires l < |lines| && p < |lines[l]| && Pushed(lines[l], p) && text == Whole(lines)
    ensures EndsArguments(lines, text, l, p, Scanned(lines, l, p))
  {
    var r := Scanned(lines, l, p);
    if r.At? {
      ScannedIsTokenScan(lines, Marks(lines), l, p);
      AngleEndsArguments(lines, Marks(lines), l, p, r);
    }
  }

  /** A successful CloseExpression from a `<` that is pushed. */
  lemma CloseAngle(lines: seq<string>, text: string, l: nat, p: nat)
    requires l < |lines| && p < |lines[l]| && Pushed(lines[l], p) && text == Whole(lines)
    ensures EndsArguments(lines, text, l, p, Close(lines, l, p))
  {
    ScannedAngle(lines, text, l, p);
  }

  // ---------- exactly what is accepted from `<` on ----------

  /** A token without influence. */
  predicate Neutral(token: char) {
    !IsBracket(token) && token != '<' && token != '>' && token != SHIFT && token != ';'
  }

  predicate EndsAngle(token: char) {
    token == '>' || token == SHIFT
  }

  /** `marks[i..j]` is derived by
      A -> empty | neutral A | `<` A `>` A | `<` A shift A | open balanced close A,
      where a shift is the second half of `<<`. */
  ghost predicate ArgumentList(marks: string, i: nat, j: nat)
    requires i <= j <= |marks|
    decreases j - i
  {
    || i == j
    || (Neutral(marks[i]) && ArgumentList(marks, i + 1, j))
    || (marks[i] == '<'
        && exists k :: i < k < j && EndsAngle(marks[k]) && ArgumentList(marks, i + 1, k) && ArgumentList(marks, k + 1, j))
    || (IsOpener(marks[i])
        && exists k :: i < k < j && Matches(marks[i], marks[k])
                       && Balanced(marks, i + 1, k) && ArgumentList(marks, k + 1, j))
  }

  /** A group leaves the stack as it found it. */
  lemma GroupReturns(marks: string, i: nat, k: nat, stack: string)
    requires stack != [] && Group(marks, i, k)
    ensures TokenScan(marks, i, stack) == TokenScan(marks, k + 1, stack)
  {
    ForwardFindsGroup(marks, i);
    WithoutOne(marks[i], '<');
    ScanAboveBase(marks, i + 1, stack, [marks[i]]);
  }

  /** An opening bracket that is survived is closed. */
  lemma GroupMustClose(marks: string, i: nat, stack: string) returns (k: nat)
    requires i < |marks| && IsOpener(marks[i]) && stack != [] && TokenScan(marks, i, stack).Some?
    ensures i < k < |marks| && Matches(marks[i], marks[k]) && Balanced(marks, i + 1, k)
    ensures TokenScan(marks, i, stack) == TokenScan(marks, k + 1, stack)
  {
    ForwardFindsGroup(marks, i);
    WithoutOne(marks[i], '<');
    ScanAboveBase(marks, i + 1, stack, [marks[i]]);
    k := MatchForward(marks, i + 1, [marks[i]]).value - 1;
    assert Group(marks, i, k);
  }

  /** A `<` and its end leave the stack as they found it, if the text between does. */
  lemma AngleReturns(marks: string, i: nat, k: nat, stack: string)
    requires i < k < |marks| && marks[i] == '<' && EndsAngle(marks[k]) && stack != []
    requires TokenScan(marks, i + 1, stack + ['<']) == TokenScan(marks, k, stack + ['<'])
    ensures TokenScan(marks, i, stack) == TokenScan(marks, k + 1, stack)
  {
    assert Pop(stack + ['<']) == stack;
    assert Step(marks[k], k + 1, stack + ['<']) == Open(stack);
  }

  lemma {:induction false} ListKeepsStack(marks: string, i: nat, j: nat, stack: string)
    requires i <= j <= |marks| && ArgumentList(marks, i, j) && stack != []
    ensures TokenScan(marks, i, stack) == TokenScan(marks, j, stack)
    decreases j - i
  {
    if i < j {
      if Neutral(marks[i]) {
        ListKeepsStack(marks, i + 1, j, stack);
      } else if marks[i] == '<' {
        var k :| i < k < j && EndsAngle(marks[k]) && ArgumentList(marks, i + 1, k) && ArgumentList(marks, k + 1, j);
        ListKeepsStack(marks, i + 1, k, stack + ['<']);
        AngleReturns(marks, i, k, stack);
        ListKeepsStack(marks, k + 1, j, stack);
      } else {
        var k :| i < k < j && Matches(marks[i], marks[k])
                 && Balanced(marks, i + 1, k) && ArgumentList(marks, k + 1, j);
        GroupReturns(marks, i, k, stack);
        ListKeepsStack(marks, k + 1, j, stack);
      }
    }
  }

  lemma ListCloses(marks: string, x: nat, y: nat)
    requires x < y < |marks| && marks[y] == '>' && ArgumentList(marks, x + 1, y)
    ensures TokenScan(marks, x + 1, ['<']) == Some(y + 1)
  {
    ListKeepsStack(marks, x + 1, y, ['<']);
  }

  predicate AllLess(stack: string) {
    forall i :: 0 <= i < |stack| ==> stack[i] == '<'
  }

  lemma AllLessDropped(stack: string)
    requires AllLess(stack)
    ensures DropTentative(stack, '<') == []
    decreases |stack|
  {
    if stack != [] {
      AllLessDropped(Pop(stack));
    }
  }

  /** A scan that succeeds from `<`s alone reads a list and then the end of the last
      of them, at `k`. */
  lemma {:induction false} ScanReadsList(marks: string, x: nat, stack: string) returns (k: nat)
    requires x <= |marks| && stack != [] && AllLess(stack) && TokenScan(marks, x, stack).Some?
    ensures x <= k < |marks| && ArgumentList(marks, x, k)
    ensures if |stack| == 1 then marks[k] == '>' && TokenScan(marks, x, stack) == Some(k + 1)
            else EndsAngle(marks[k]) && TokenScan(marks, x, stack) == TokenScan(marks, k + 1, Pop(stack))
    decreases |marks| - x
  {
    AllLessDropped(stack);
    if marks[x] == '<' {
      var more := stack + ['<'];
      assert Pop(more) == stack;
      var e := ScanReadsList(marks, x + 1, more);
      k := ScanReadsList(marks, e + 1, stack);
    } else if IsOpener(marks[x]) {
      var e := GroupMustClose(marks, x, stack);
      k := ScanReadsList(marks, e + 1, stack);
    } else if EndsAngle(marks[x]) {
      k := x;
    } else {
      k := ScanReadsList(marks, x + 1, stack);
    }
  }

  lemma PlacePast(lines: seq<string>, r: Place, m: nat, q: nat)
    requires m < |lines| && q < |lines[m]| && PastCharacter(lines, r)
    requires Flat(lines, r) == Some(Offset(lines, m) + q + 1)
    ensures r == At(m, q + 1)
  {
    OffsetInjective(lines, m, q, r.line, r.pos - 1);
  }

  lemma MarkAt(lines: seq<string>, marks: string, m: nat, q: nat)
    requires m < |lines| && q < |lines[m]| && marks == Marks(lines)
    ensures Offset(lines, m) + q < |marks| && marks[Offset(lines, m) + q] == Token(lines[m], q)
  {
    LineInMarks(lines, marks, m);
    assert marks[Offset(lines, m) + q] == MarkLine(lines[m])[q];
  }

  /** A template argument list, with its nested lists and its groups in brackets,
      is closed at its own `>`, over any number of lines. */
  lemma CloseArgumentList(lines: seq<string>, marks: string, l: nat, p: nat, m: nat, q: nat)
    requires l < |lines| && p < |lines[l]| && Pushed(lines[l], p) && !ShiftOrCompare(lines[l], p)
    requires m < |lines| && q < |lines[m]| && Token(lines[m], q) == '>' && marks == Marks(lines)
    requires Offset(lines, l) + p + 1 <= Offset(lines, m) + q <= |marks|
    requires ArgumentList(marks, Offset(lines, l) + p + 1, Offset(lines, m) + q)
    ensures Close(lines, l, p) == At(m, q + 1)
  {
    MarkAt(lines, marks, m, q);
    ListCloses(marks, Offset(lines, l) + p, Offset(lines, m) + q);
    CloseIsTokenScan(lines, marks, l, p);
    PlacePast(lines, Close(lines, l, p), m, q);
  }

  /** From a `<` that is pushed and starts neither `<<` nor `<=`, CloseExpression
      answers just past `q` if and only if a `>` stands there and the text between is a
      template argument list. */
  lemma CloseIffArgumentList(lines: seq<string>, marks: string, l: nat, p: nat, m: nat, q: nat)
    requires l < |lines| && p < |lines[l]| && Pushed(lines[l], p) && !ShiftOrCompare(lines[l], p)
    requires m < |lines| && q < |lines[m]| && marks == Marks(lines)
    requires Offset(lines, l) + p + 1 <= Offset(lines, m) + q <= |marks|
    ensures Close(lines, l, p) == At(m, q + 1) <==>
            Token(lines[m], q) == '>' && ArgumentList(marks, Offset(lines, l) + p + 1, Offset(lines, m) + q)
  {
    if Close(lines, l, p) == At(m, q + 1) {
      CloseIsTokenScan(lines, marks, l, p);
      MarkAt(lines, marks, m, q);
      var k := ScanReadsList(marks, Offset(lines, l) + p + 1, ['<']);
    } else if Token(lines[m], q) == '>' && ArgumentList(marks, Offset(lines, l) + p + 1, Offset(lines, m) + q) {
      CloseArgumentList(lines, marks, l, p, m, q);
    }
  }

  // ---------- the same backwards ----------

  predicate BackNeutral(token: char) {
    !IsBracket(token) && token != '<' && token != '>' && token != JUMP && token != ';'
  }

  /** The same grammar for what characters count as backwards: any character but a
      bracket may be taken along by the one after it. */
  ghost predicate BackList(marks: string, i: nat, j: nat)
    requires i <= j <= |marks|
    decreases j - i
  {
    || i == j
    || (BackNeutral(marks[i]) && BackList(marks, i + 1, j))
    || (i + 1 < j && !IsBracket(marks[i]) && marks[i + 1] == JUMP && BackList(marks, i + 2, j))
    || (marks[i] == '<'
        && exists k :: i < k < j && marks[k] == '>' && BackList(marks, i + 1, k) && BackList(marks, k + 1, j))
    || (IsOpener(marks[i])
        && exists k :: i < k < j && Matches(marks[i], marks[k])
                       && Balanced(marks, i + 1, k) && BackList(marks, k + 1, j))
  }

  lemma GroupReturnsBack(marks: string, i: nat, k: nat, stack: string)
    requires JumpsOverPlain(marks) && stack != [] && Group(marks, i, k)
    ensures BackScan(marks, k + 1, stack) == BackScan(marks, i, stack)
  {
    BackwardFindsGroup(marks, k);
    WithoutOne(marks[k], '>');
    BackScanRefines(marks, k, stack, [marks[k]]);
  }

  lemma AngleReturnsBack(marks: string, i: nat, k: nat, stack: string)
    requires i < k < |marks| && marks[i] == '<' && marks[k] == '>' && stack != []
    requires BackScan(marks, k, stack + ['>']) == BackScan(marks, i + 1, stack + ['>'])
    ensures BackScan(marks, k + 1, stack) == BackScan(marks, i, stack)
  {
    assert Pop(stack + ['>']) == stack;
    assert BackStep('<', i, stack + ['>']) == Open(stack);
  }

  lemma {:induction false} ListKeepsStackBack(marks: string, i: nat, j: nat, stack: string)
    requires JumpsOverPlain(marks) && i <= j <= |marks| && BackList(marks, i, j) && stack != []
    ensures BackScan(marks, j, stack) == BackScan(marks, i, stack)
    decreases j - i
  {
    if i < j {
      if i + 1 < j && !IsBracket(marks[i]) && marks[i + 1] == JUMP && BackList(marks, i + 2, j) {
        ListKeepsStackBack(marks, i + 2, j, stack);
      } else if BackNeutral(marks[i]) {
        ListKeepsStackBack(marks, i + 1, j, stack);
      } else if marks[i] == '<' {
        var k :| i < k < j && marks[k] == '>' && BackList(marks, i + 1, k) && BackList(marks, k + 1, j);
        ListKeepsStackBack(marks, k + 1, j, stack);
        ListKeepsStackBack(marks, i + 1, k, stack + ['>']);
        AngleReturnsBack(marks, i, k, stack);
      } else {
        var k :| i < k < j && Matches(marks[i], marks[k])
                 && Balanced(marks, i + 1, k) && BackList(marks, k + 1, j);
        ListKeepsStackBack(marks, k + 1, j, stack);
        GroupReturnsBack(marks, i, k, stack);
      }
    }
  }

  lemma ListOpens(marks: string, x: nat, y: nat)
    requires JumpsOverPlain(marks) && x < y < |marks| && marks[x] == '<' && BackList(marks, x + 1, y)
    ensures BackScan(marks, y, ['>']) == Some(x)
  {
    ListKeepsStackBack(marks, x + 1, y, ['>']);
  }

  lemma BackMarkAt(lines: seq<string>, marks: string, l: nat, p: nat)
    requires l < |lines| && p < |lines[l]| && marks == BackMarks(lines)
    ensures Offset(lines, l) + p < |marks| && marks[Offset(lines, l) + p] == BackToken(lines[l], p)
  {
    LineInBackMarks(lines, marks, l);
    assert marks[Offset(lines, l) + p] == BackMarkLine(lines[l])[p];
  }

  /** A list is opened at its own `<` when the matcher starts at the `>`. */
  lemma ReverseCloseArgumentList(lines: seq<string>, marks: string, l: nat, p: nat, m: nat, q: nat)
    requires l < |lines| && p < |lines[l]| && BackToken(lines[l], p) == '<'
    requires m < |lines| && q < |lines[m]| && BackToken(lines[m], q) == '>' && marks == BackMarks(lines)
    requires Offset(lines, l) + p + 1 <= Offset(lines, m) + q <= |marks|
    requires BackList(marks, Offset(lines, l) + p + 1, Offset(lines, m) + q)
    ensures ReverseClose(lines, m, q) == At(l, p)
  {
    BackMarksKeepBrackets(lines, |lines|);
    BackMarkAt(lines, marks, l, p);
    BackMarkAt(lines, marks, m, q);
    ListOpens(marks, Offset(lines, l) + p, Offset(lines, m) + q);
    ReverseCloseIsBackScan(lines, marks, m, q);
    var r := ReverseClose(lines, m, q);
    OffsetInjective(lines, l, p, r.line, r.pos);
  }

  /** A closing bracket that is survived is opened. */
  lemma GroupMustOpen(marks: string, x: nat, stack: string) returns (k: nat)
    requires JumpsOverPlain(marks) && 0 < x <= |marks| && IsCloser(marks[x - 1]) && stack != []
    requires BackScan(marks, x, stack).Some?
    ensures k < x - 1 && Matches(marks[k], marks[x - 1]) && Balanced(marks, k + 1, x - 1)
    ensures BackScan(marks, x, stack) == BackScan(marks, k, stack)
  {
    BackwardFindsGroup(marks, x - 1);
    WithoutOne(marks[x - 1], '>');
    BackScanRefines(marks, x - 1, stack, [marks[x - 1]]);
    k := MatchBackward(marks, x - 1, [marks[x - 1]]).value;
    assert Group(marks, k, x - 1);
  }

  lemma {:induction false} BackListConcat(marks: string, i: nat, j: nat, k: nat)
    requires i <= j <= k <= |marks| && BackList(marks, i, j) && BackList(marks, j, k)
    ensures BackList(marks, i, k)
    decreases j - i
  {
    if i < j {
      if i + 1 < j && !IsBracket(marks[i]) && marks[i + 1] == JUMP && BackList(marks, i + 2, j) {
        BackListConcat(marks, i + 2, j, k);
      } else if BackNeutral(marks[i]) {
        BackListConcat(marks, i + 1, j, k);
      } else if marks[i] == '<' {
        var m :| i < m < j && marks[m] == '>' && BackList(marks, i + 1, m) && BackList(marks, m + 1, j);
        BackListConcat(marks, m + 1, j, k);
      } else {
        var m :| i < m < j && Matches(marks[i], marks[m])
                 && Balanced(marks, i + 1, m) && BackList(marks, m + 1, j);
        BackListConcat(marks, m + 1, j, k);
      }
    }
  }

  predicate AllGreater(stack: string) {
    forall i :: 0 <= i < |stack| ==> stack[i] == '>'
  }

  lemma AllGreaterDropped(stack: string)
    requires AllGreater(stack)
    ensures DropTentative(stack, '>') == []
    decreases |stack|
  {
    if stack != [] {
      AllGreaterDropped(Pop(stack));
    }
  }

  /** One neutral character, one operator, one list or one group is a list. */
  lemma BackListOne(marks: string, i: nat, j: nat)
    requires i < j <= |marks|
    requires || (j == i + 1 && BackNeutral(marks[i]))
             || (j == i + 2 && !IsBracket(marks[i]) && marks[i + 1] == JUMP)
             || (i + 1 < j && marks[i] == '<' && marks[j - 1] == '>' && BackList(marks, i + 1, j - 1))
             || Group(marks, i, j - 1)
    ensures BackList(marks, i, j)
  {
    assert BackList(marks, j, j);
  }

  lemma BackListGrows(marks: string, i: nat, j: nat, k: nat)
    requires i <= j < k <= |marks| && BackList(marks, i, j)
    requires || (k == j + 1 && BackNeutral(marks[j]))
             || (k == j + 2 && !IsBracket(marks[j]) && marks[j + 1] == JUMP)
             || (j + 1 < k && marks[j] == '<' && marks[k - 1] == '>' && BackList(marks, j + 1, k - 1))
             || Group(marks, j, k - 1)
    ensures BackList(marks, i, k)
  {
    BackListOne(marks, j, k);
    BackListConcat(marks, i, j, k);
  }

  lemma BackStepNeutral(marks: string, x: nat, stack: string)
    requires 0 < x <= |marks| && AllGreater(stack) && stack != []
    requires BackScan(marks, x, stack).Some? && !IsCloser(marks[x - 1])
    requires marks[x - 1] != JUMP && marks[x - 1] != '<' && marks[x - 1] != '>'
    ensures BackNeutral(marks[x - 1]) && BackScan(marks, x, stack) == BackScan(marks, x - 1, stack)
  {
    AllGreaterDropped(stack);
  }

  /** A scan that succeeds from `>`s alone reads a list and then the start of the last
      of them, at `k`. */
  lemma {:induction false} BackScanReadsList(marks: string, x: nat, stack: string) returns (k: nat)
    requires JumpsOverPlain(marks) && x <= |marks| && stack != [] && AllGreater(stack)
    requires BackScan(marks, x, stack).Some?
    ensures k < x && marks[k] == '<' && BackList(marks, k + 1, x)
    ensures BackScan(marks, x, stack) == if |stack| == 1 then Some(k) else BackScan(marks, k, Pop(stack))
    decreases x
  {
    var c, e := marks[x - 1], x - 1;
    if c == '<' {
      k := x - 1;
    } else {
      if c == JUMP {
        e := x - 2;
      } else if c == '>' {
        var more := stack + ['>'];
        assert Pop(more) == stack;
        e := BackScanReadsList(marks, x - 1, more);
      } else if IsCloser(c) {
        e := GroupMustOpen(marks, x, stack);
      } else {
        BackStepNeutral(marks, x, stack);
      }
      k := BackScanReadsList(marks, e, stack);
      BackListGrows(marks, k + 1, e, x);
    }
  }

  lemma BackListMeans(lines: seq<string>, marks: string, l: nat, p: nat, m: nat, q: nat)
    requires l < |lines| && p < |lines[l]| && marks == BackMarks(lines)
    requires m < |lines| && q < |lines[m]| && BackToken(lines[m], q) == '>'
    requires ReverseClose(lines, m, q) == At(l, p)
    ensures Offset(lines, l) + p + 1 <= Offset(lines, m) + q <= |marks| && BackToken(lines[l], p) == '<'
    ensures BackList(marks, Offset(lines, l) + p + 1, Offset(lines, m) + q)
  {
    BackMarksKeepBrackets(lines, |lines|);
    BackMarkAt(lines, marks, l, p);
    ReverseCloseIsBackScan(lines, marks, m, q);
    var k := BackScanReadsList(marks, Offset(lines, m) + q, ['>']);
  }

  /** From a `>` that is no operator, ReverseCloseExpression answers `p` if and only if
      a `<` stands there and the text between is a list as it is read backwards. */
  lemma ReverseCloseIffArgumentList(lines: seq<string>, marks: string, l: nat, p: nat, m: nat, q: nat)
    requires l < |lines| && p < |lines[l]| && marks == BackMarks(lines)
    requires m < |lines| && q < |lines[m]| && BackToken(lines[m], q) == '>'
    ensures ReverseClose(lines, m, q) == At(l, p) <==>
            && BackToken(lines[l], p) == '<'
            && Offset(lines, l) + p + 1 <= Offset(lines, m) + q <= |marks|
            && BackList(marks, Offset(lines, l) + p + 1, Offset(lines, m) + q)
  {
    if ReverseClose(lines, m, q) == At(l, p) {
      BackListMeans(lines, marks, l, p, m, q);
    } else if BackToken(lines[l], p) == '<' && Offset(lines, l) + p + 1 <= Offset(lines, m) + q <= |marks|
              && BackList(marks, Offset(lines, l) + p + 1, Offset(lines, m) + q) {
      ReverseCloseArgumentList(lines, marks, l, p, m, q);
    }
  }

  lemma {:induction false} BackListIsBalanced(marks: string, i: nat, j: nat)
    requires JumpsOverPlain(marks) && i <= j <= |marks| && BackList(marks, i, j)
    ensures Balanced(marks, i, j)
    decreases j - i
  {
    if i < j {
      if i + 1 < j && !IsBracket(marks[i]) && marks[i + 1] == JUMP && BackList(marks, i + 2, j) {
        BackListIsBalanced(marks, i + 2, j);
        assert Balanced(marks, i + 1, j);
      } else if BackNeutral(marks[i]) {
        BackListIsBalanced(marks, i + 1, j);
      } else if marks[i] == '<' {
        var k :| i < k < j && marks[k] == '>' && BackList(marks, i + 1, k) && BackList(marks, k + 1, j);
        BackListIsBalanced(marks, i + 1, k);
        BackListIsBalanced(marks, k + 1, j);
        assert Balanced(marks, k, j);
        BalancedConcat(marks, i + 1, k, j);
      } else {
        var k :| i < k < j && Matches(marks[i], marks[k])
                 && Balanced(marks, i + 1, k) && BackList(marks, k + 1, j);
        BackListIsBalanced(marks, k + 1, j);
      }
    }
  }

  /** Text is as unbalanced as what follows a balanced part of it. */
  lemma UnbalancedLater(text: string, i: nat, k: nat, j: nat)
    requires i <= k <= j <= |text| && Balanced(text, i, k) && !Balanced(text, k, j)
    ensures !Balanced(text, i, j)
  {
    DepthFrom(text, i, k, j);
    DepthZeroIffBalanced(text, i, j);
    DepthZeroIffBalanced(text, k, j);
  }

  /** No text that ends inside a group is balanced. */
  lemma InsideGroup(text: string, i: nat, k: nat, m: nat)
    requires Group(text, i, m) && i < k <= m
    ensures !Balanced(text, i, k)
  {
    if Balanced(text, i, k) {
      var e :| i < e < k && Matches(text[i], text[e]) && Balanced(text, i + 1, e) && Balanced(text, e + 1, k);
      ForwardFindsGroup(text, i);
      assert Group(text, i, e);
      assert false;
    }
  }

  /** A semicolon after a list and inside a longer one is nested if it is in the rest. */
  lemma NestedInRest(marks: string, i: nat, m: nat, k: nat)
    requires JumpsOverPlain(marks) && i <= m <= k <= |marks| && BackList(marks, i, m) && !Balanced(marks, m, k)
    ensures !Balanced(marks, i, k)
  {
    BackListIsBalanced(marks, i, m);
    UnbalancedLater(marks, i, m, k);
  }

  lemma {:induction false} BackListNests(marks: string, i: nat, j: nat, k: nat)
    requires JumpsOverPlain(marks) && i <= k < j <= |marks| && BackList(marks, i, j) && marks[k] == ';'
    ensures !Balanced(marks, i, k)
    decreases j - i, 1
  {
    if i + 1 < j && !IsBracket(marks[i]) && marks[i + 1] == JUMP && BackList(marks, i + 2, j) {
      BackListNests(marks, i + 2, j, k);
    } else if BackNeutral(marks[i]) {
      BackListNests(marks, i + 1, j, k);
    } else if marks[i] == '<' {
      var m :| i < m < j && marks[m] == '>' && BackList(marks, i + 1, m) && BackList(marks, m + 1, j);
      if k < m {
        BackListNests(marks, i + 1, m, k);
      } else {
        BackListOne(marks, i, m + 1);
        BackListNests(marks, m + 1, j, k);
        NestedInRest(marks, i, m + 1, k);
      }
    } else {
      GroupNests(marks, i, j, k);
    }
  }

  lemma {:induction false} GroupNests(marks: string, i: nat, j: nat, k: nat)
    requires JumpsOverPlain(marks) && i <= k < j <= |marks| && BackList(marks, i, j) && marks[k] == ';'
    requires IsOpener(marks[i])
    ensures !Balanced(marks, i, k)
    decreases j - i, 0
  {
    var m :| i < m < j && Matches(marks[i], marks[m])
             && Balanced(marks, i + 1, m) && BackList(marks, m + 1, j);
    if k < m {
      InsideGroup(marks, i, k, m);
    } else {
      BackListOne(marks, i, m + 1);
      BackListNests(marks, m + 1, j, k);
      NestedInRest(marks, i, m + 1, k);
    }
  }

  lemma BackListIsArgumentText(lines: seq<string>, text: string, marks: string, first: nat, last: nat)
    requires text == Whole(lines) && marks == BackMarks(lines)
    requires first <= last <= |marks| && BackList(marks, first, last)
    ensures ArgumentText(text, first, last)
  {
    BackMarksKeepBrackets(lines, |lines|);
    BackListIsBalanced(marks, first, last);
    BalancedSeesBrackets(marks, text, first, last);
    forall k | first <= k < last && text[k] == ';'
      ensures !Balanced(text, first, k)
    {
      BackListNests(marks, first, last, k);
      if Balanced(text, first, k) {
        BalancedSeesBrackets(text, marks, first, k);
      }
    }
  }

  /** A successful ReverseCloseExpression from a `>` that is no operator: the answer is
      a `<`, and the text between is balanced in `()[]{}` with every semicolon inside
      one of those brackets. */
  lemma ReverseCloseArguments(lines: seq<string>, text: string, m: nat, q: nat)
    requires m < |lines| && q < |lines[m]| && BackToken(lines[m], q) == '>' && text == Whole(lines)
    ensures OnCharacter(lines, ReverseClose(lines, m, q))
    ensures match ReverseClose(lines, m, q)
            case At(l, p) =>
              lines[l][p] == '<' && ArgumentText(text, Offset(lines, l) + p + 1, Offset(lines, m) + q)
            case NotFound => true
  {
    var marks, r := BackMarks(lines), ReverseClose(lines, m, q);
    ReverseCloseIsBackScan(lines, marks, m, q);
    if r.At? {
      BackListMeans(lines, marks, r.line, r.pos, m, q);
      BackListIsArgumentText(lines, text, marks, Offset(lines, r.line) + r.pos + 1, Offset(lines, m) + q);
    }
  }

  // ---------- operators ----------

  /** The `>` of an arrow, the second half of `<<`, a `>` between blanks and `=`, and
      angles after the keyword `operator` do not count as brackets. */
  lemma OperatorsAreNoAngles(before: string, gap: string, c: char, after: string)
    requires AllSpace(gap)
    ensures var line, i := before + "->" + after, |before| + 1; Token(line, i) == PLAIN && BackToken(line, i) == JUMP
    ensures var line, i := before + "<<" + after, |before| + 1; Token(line, i) == SHIFT && BackToken(line, i) == JUMP
    ensures BackToken(before + " >= " + after, |before| + 1) == JUMP
    ensures EndsWord(before) ==>
              var word := before + "operator" + gap;
              && Token(word + "<" + after, |word|) == PLAIN
              && BackToken(word + ">" + after, |word|) == JUMP
              && Token(word + [c] + ">" + after, |word| + 1) == PLAIN
  {
    var word := before + "operator" + gap;
    OperatorEnds(before, gap);
    assert (word + "<" + after)[..|word|] == word;
    assert (word + ">" + after)[..|word|] == word;
    assert (word + [c] + ">" + after)[..|word|] == word;
  }

  /** A `<` or `>` between two characters of other kinds, and not after the keyword
      `operator`, counts as a bracket for both matchers. */
  lemma AnglesCount(before: string, after: string)
    requires before != "" && IsWord(before[|before| - 1]) && !EndsWithOperator(before)
    ensures Token(before + "<" + after, |before|) == BackToken(before + "<" + after, |before|) == '<'
    ensures !EndsWithOperator(before[..|before| - 1]) ==>
              Token(before + ">" + after, |before|) == BackToken(before + ">" + after, |before|) == '>'
  {
    assert (before + "<" + after)[..|before|] == before;
    assert (before + ">" + after)[..|before|] == before;
    assert (before + ">" + after)[..|before| - 1] == before[..|before| - 1];
  }

  // ---------- lists that both matchers read alike ----------

  /** Both matchers see the same at `x`, or an operator without influence: forwards
      two neutral characters or a whole `<<`, backwards a character that takes the one
      before it along. */
  predicate AlikeAt(marks: string, back: string, x: nat)
    requires x < |marks| == |back|
  {
    || (back[x] == marks[x] && marks[x] != JUMP && marks[x] != SHIFT)
    || (back[x] == JUMP && x > 0 && back[x - 1] == marks[x - 1]
        && if marks[x] == SHIFT then marks[x - 1] == '<' else marks[x] == PLAIN == marks[x - 1])
  }

  /** They see the same at every position that no bracket opened since `i` encloses. */
  ghost predicate Alike(marks: string, back: string, i: nat, j: nat) {
    && i <= j <= |marks| == |back|
    && (forall x :: i <= x < j && Depth(marks, i, x) == Some([]) ==> AlikeAt(marks, back, x))
    && (i < j ==> back[i] != JUMP)
  }

  lemma {:induction false} ListIsBalanced(marks: string, i: nat, j: nat)
    requires i <= j <= |marks| && ArgumentList(marks, i, j)
    ensures Balanced(marks, i, j)
    ensures i < j ==> marks[j - 1] != '<'
    decreases j - i
  {
    if i < j {
      if Neutral(marks[i]) {
        ListIsBalanced(marks, i + 1, j);
      } else if marks[i] == '<' {
        var k :| i < k < j && EndsAngle(marks[k]) && ArgumentList(marks, i + 1, k) && ArgumentList(marks, k + 1, j);
        AngleIsBalanced(marks, i, k);
        ListIsBalanced(marks, k + 1, j);
        BalancedConcat(marks, i, k + 1, j);
      } else {
        var k :| i < k < j && Matches(marks[i], marks[k])
                 && Balanced(marks, i + 1, k) && ArgumentList(marks, k + 1, j);
        ListIsBalanced(marks, k + 1, j);
      }
    }
  }

  lemma {:induction false} AngleIsBalanced(marks: string, i: nat, k: nat)
    requires i < k < |marks| && marks[i] == '<' && EndsAngle(marks[k]) && ArgumentList(marks, i + 1, k)
    ensures Balanced(marks, i, k + 1)
    decreases k - i
  {
    ListIsBalanced(marks, i + 1, k);
    assert Balanced(marks, i, k);
    assert Balanced(marks, k, k + 1);
    BalancedConcat(marks, i, k, k + 1);
  }

  /** What follows balanced text is read alike too, if nothing is taken along. */
  lemma AlikeFrom(marks: string, back: string, i: nat, j: nat, k: nat, n: nat)
    requires Alike(marks, back, i, j) && i < k <= n <= j && Balanced(marks, i, k)
    requires k < n ==> back[k] != JUMP
    ensures Alike(marks, back, k, n)
  {
    forall x | k <= x < n && Depth(marks, k, x) == Some([])
      ensures AlikeAt(marks, back, x)
    {
      DepthFrom(marks, i, k, x);
    }
  }

  /** The position after balanced text is read alike. */
  lemma AlikeNext(marks: string, back: string, i: nat, j: nat, k: nat)
    requires Alike(marks, back, i, j) && i <= k < j && Balanced(marks, i, k)
    ensures AlikeAt(marks, back, k)
  {
    DepthZeroIffBalanced(marks, i, k);
  }

  lemma {:induction false} AlikeAngle(marks: string, back: string, i: nat, j: nat)
    requires Alike(marks, back, i, j) && ArgumentList(marks, i, j) && SameBrackets(marks, back)
    requires i < j && marks[i] == '<'
    ensures BackList(back, i, j)
    decreases j - i, 0
  {
    var k :| i < k < j && EndsAngle(marks[k]) && ArgumentList(marks, i + 1, k) && ArgumentList(marks, k + 1, j);
    ListIsBalanced(marks, i + 1, k);
    AngleIsBalanced(marks, i, k);
    assert Balanced(marks, i, i + 1) && Balanced(marks, i, k);
    AlikeNext(marks, back, i, j, i);
    AlikeNext(marks, back, i, j, k);
    if k + 1 < j {
      AlikeNext(marks, back, i, j, k + 1);
    }
    AlikeFrom(marks, back, i, j, k + 1, j);
    AlikeKeepsList(marks, back, k + 1, j);
    if marks[k] == SHIFT {
      assert k == i + 1;
    } else {
      if i + 1 < k {
        AlikeNext(marks, back, i, j, i + 1);
      }
      AlikeFrom(marks, back, i, j, i + 1, k);
      AlikeKeepsList(marks, back, i + 1, k);
    }
  }

  lemma {:induction false} AlikeNeutral(marks: string, back: string, i: nat, j: nat)
    requires Alike(marks, back, i, j) && ArgumentList(marks, i, j) && SameBrackets(marks, back)
    requires i < j && Neutral(marks[i])
    ensures BackList(back, i, j)
    decreases j - i, 0
  {
    AlikeNext(marks, back, i, j, i);
    assert Balanced(marks, i, i + 1);
    if i + 1 < j && back[i + 1] == JUMP {
      AlikeNext(marks, back, i, j, i + 1);
      assert Balanced(marks, i, i + 2);
      if i + 2 < j {
        AlikeNext(marks, back, i, j, i + 2);
      }
      AlikeFrom(marks, back, i, j, i + 2, j);
      AlikeKeepsList(marks, back, i + 2, j);
    } else {
      AlikeFrom(marks, back, i, j, i + 1, j);
      AlikeKeepsList(marks, back, i + 1, j);
    }
  }

  lemma {:induction false} AlikeGroup(marks: string, back: string, i: nat, j: nat)
    requires Alike(marks, back, i, j) && ArgumentList(marks, i, j) && SameBrackets(marks, back)
    requires i < j && IsOpener(marks[i])
    ensures BackList(back, i, j)
    decreases j - i, 0
  {
    var k :| i < k < j && Matches(marks[i], marks[k])
             && Balanced(marks, i + 1, k) && ArgumentList(marks, k + 1, j);
    GroupIsBalanced(marks, i, k);
    if k + 1 < j {
      AlikeNext(marks, back, i, j, k + 1);
    }
    AlikeFrom(marks, back, i, j, k + 1, j);
    AlikeKeepsList(marks, back, k + 1, j);
    BalancedSeesBrackets(marks, back, i + 1, k);
  }

  lemma {:induction false} AlikeKeepsList(marks: string, back: string, i: nat, j: nat)
    requires Alike(marks, back, i, j) && ArgumentList(marks, i, j) && SameBrackets(marks, back)
    ensures BackList(back, i, j)
    decreases j - i, 1
  {
    if i < j {
      if Neutral(marks[i]) {
        AlikeNeutral(marks, back, i, j);
      } else if marks[i] == '<' {
        AlikeAngle(marks, back, i, j);
      } else {
        AlikeGroup(marks, back, i, j);
      }
    }
  }

  lemma SameBracketsBoth(lines: seq<string>)
    ensures SameBrackets(Marks(lines), BackMarks(lines))
  {
    MarksKeepBrackets(lines, |lines|);
    BackMarksKeepBrackets(lines, |lines|);
  }

  /** On a template argument list that both matchers read alike they undo each
      other, from the `<` to the `>` and back. */
  lemma ListInverse(lines: seq<string>, marks: string, back: string, l: nat, p: nat, m: nat, q: nat)
    requires marks == Marks(lines) && back == BackMarks(lines)
    requires l < |lines| && p < |lines[l]| && Pushed(lines[l], p) && !ShiftOrCompare(lines[l], p)
    requires m < |lines| && q < |lines[m]| && Token(lines[m], q) == BackToken(lines[m], q) == '>'
    requires Alike(marks, back, Offset(lines, l) + p + 1, Offset(lines, m) + q)
    requires ArgumentList(marks, Offset(lines, l) + p + 1, Offset(lines, m) + q)
    ensures Close(lines, l, p) == At(m, q + 1) && ReverseClose(lines, m, q) == At(l, p)
  {
    SameBracketsBoth(lines);
    CloseArgumentList(lines, marks, l, p, m, q);
    AlikeKeepsList(marks, back, Offset(lines, l) + p + 1, Offset(lines, m) + q);
    ReverseCloseArgumentList(lines, back, l, p, m, q);
  }

  /** A `<` that is pushed or the second half of a `<<` that is, a `>` that is an
      arrow's or no operator's, or any other character. */
  predicate Readable(line: string, i: nat)
    requires i < |line|
  {
    && (line[i] == '<' ==> Pushed(line, i) || (i > 0 && Pushed(line, i - 1)))
    && (line[i] == '>' && i > 0 ==>
          || line[i - 1] == '-'
          || !(SpacedGreaterEqual(line, i - 1) || EndsWithOperator(line[..i - 1]) || EndsWithOperator(line[..i])))
  }

  lemma TokensAlike(line: string, i: nat)
    requires i < |line| && Readable(line, i)
    ensures AlikeAt(MarkLine(line), BackMarkLine(line), i)
  {
    if line[i] == '>' && i > 0 && line[i - 1] == '-' {
      assert Stride(line, i - 1) == 1;
    }
  }

  lemma AlikeInText(marks: string, back: string, off: nat, m: string, b: string, i: nat)
    requires |m| == |b| && i < |m| && off + |m| <= |marks| == |back|
    requires marks[off..off + |m|] == m && back[off..off + |b|] == b && AlikeAt(m, b, i)
    ensures AlikeAt(marks, back, off + i)
  {
    assert marks[off + i] == m[i] && back[off + i] == b[i];
    assert i > 0 ==> marks[off + i - 1] == m[i - 1] && back[off + i - 1] == b[i - 1];
  }

  /** Such characters are read alike, wherever they stand in the file. */
  lemma ReadAlike(lines: seq<string>, marks: string, back: string, l: nat, i: nat)
    requires marks == Marks(lines) && back == BackMarks(lines)
    requires l < |lines| && i < |lines[l]| && Readable(lines[l], i)
    ensures Offset(lines, l) + i < |marks| == |back| && AlikeAt(marks, back, Offset(lines, l) + i)
  {
    SameBracketsBoth(lines);
    TokensAlike(lines[l], i);
    LineInMarks(lines, marks, l);
    LineInBackMarks(lines, back, l);
    AlikeInText(marks, back, Offset(lines, l), MarkLine(lines[l]), BackMarkLine(lines[l]), i);
  }

  // ---------- a `<` that is not pushed ----------

  /** A token that does something to an empty stack. */
  predicate Decides(token: char) {
    IsBracket(token) || token == '<' || token == ';'
  }

  /** The first such token at or after `i`, or the end of the line. */
  function NextDecisive(line: string, i: nat): (s: nat)
    requires i <= |line|
    ensures i <= s <= |line|
    ensures s < |line| ==> Decides(Token(line, s))
    ensures forall k :: i <= k < s ==> !Decides(Token(line, k))
    decreases |line| - i
  {
    if i == |line| || Decides(Token(line, i)) then i else NextDecisive(line, i + 1)
  }

  lemma {:induction false} EmptyStackSkips(line: string, i: nat)
    requires i <= |line|
    ensures ScanEnd(line, i, []) == ScanEnd(line, NextDecisive(line, i), [])
    decreases |line| - i
  {
    if i < |line| && !Decides(Token(line, i)) {
      assert Step(Token(line, i), i + 1, []) == Open([]);
      EmptyStackSkips(line, i + 1);
    }
  }

  lemma DecisiveAnswer(lines: seq<string>, l: nat, s: nat)
    requires l < |lines| && s <= |lines[l]| && (s < |lines[l]| ==> Decides(Token(lines[l], s)))
    ensures var line := lines[l];
            Scanned(lines, l, s)
            == if s == |line| || IsCloser(line[s]) || line[s] == ';' then NotFound
               else if !ShiftOrCompare(line, s) then Close(lines, l, s)
               else if line[s + 1] == '<' then NotFound
               else FollowForward(lines, l, ScanEnd(line, s + 1, ['<']))
    ensures s < |lines[l]| && lines[l][s] == '<' ==> Pushed(lines[l], s)
  {
    var line := lines[l];
    if s < |line| && line[s] == '<' {
      var none: string := [];
      assert none + ['<'] == ['<'];
      assert Token(line, s) == '<' && Step('<', s + 1, none) == Open(['<']);
      if s + 1 < |line| && line[s + 1] == '<' {
        assert Token(line, s + 1) == SHIFT && Step(SHIFT, s + 2, ['<']) == Dead;
        assert ScanEnd(line, s, none) == ScanEnd(line, s + 1, ['<']) == Dead;
      }
    }
  }

  /** From a `<` that is not pushed, CloseExpression answers for the first bracket or
      pushed `<` after it on the line, unless a closing bracket or a semicolon comes
      before; from a `<=` reached in this way it also looks for a `>`. */
  lemma UnpushedAngle(lines: seq<string>, text: string, l: nat, p: nat, s: nat)
    requires l < |lines| && p < |lines[l]| && lines[l][p] == '<' && !Pushed(lines[l], p)
    requires !ShiftOrCompare(lines[l], p) && s == NextDecisive(lines[l], p + 1) && text == Whole(lines)
    ensures var line, answer := lines[l], Close(lines, l, p);
            if s == |line| || IsCloser(line[s]) || line[s] == ';' then answer == NotFound
            else if !ShiftOrCompare(line, s) then answer == Close(lines, l, s)
            else if line[s + 1] == '<' then answer == NotFound
            else answer == Scanned(lines, l, s) && EndsArguments(lines, text, l, s, answer)
  {
    assert Step(Token(lines[l], p), p + 1, []) == Open([]);
    EmptyStackSkips(lines[l], p + 1);
    DecisiveAnswer(lines, l, s);
    if s < |lines[l]| && lines[l][s] == '<' {
      ScannedAngle(lines, text, l, s);
    }
  }

  lemma UnpushedAngleAnswersElsewhere()
    ensures Close(["a<<b(c)"], 0, 2) == At(0, 7)
  {
    var line := "a<<b(c)";
    var none: string := [];
    assert Token(line, 2) == SHIFT && Token(line, 3) == PLAIN && Token(line, 5) == PLAIN;
    assert ScanEnd(line, 4, none) == Found(7) by {
      assert Token(line, 4) == '(' && Token(line, 6) == ')' && none + ['('] == ['('];
      assert Step('(', 5, none) == Open(['(']) && Step(PLAIN, 6, ['(']) == Open(['(']);
      assert Step(')', 7, ['(']) == Found(7);
    }
    assert Step(SHIFT, 3, none) == Open(none) && Step(PLAIN, 4, none) == Open(none);
    assert ScanEnd(line, 2, none) == ScanEnd(line, 3, none) == ScanEnd(line, 4, none);
  }
}
