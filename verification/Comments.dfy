/** The in-place eraser of multi-line comments. */
module Comments {
  import opened Text

  const BLANK := "/**/"

  /** The text begins a comment that it does not end. */
  predicate BeginsOnly(s: string) {
    StartsWith(s, "/*") && forall k :: 2 <= k <= |s| ==> !WordAt(s, "*/", k)
  }

  predicate StartsComment(line: string) {
    BeginsOnly(Strip(line))
  }

  predicate EndsComment(line: string) {
    EndsWith(Strip(line), "*/")
  }

  /** A closing mark stands at `k`. */
  predicate ClosesAt(s: string, k: nat) {
    k + 1 < |s| && s[k] == '*' && s[k + 1] == '/'
  }

  lemma BeginsOnlyRead(s: string)
    ensures BeginsOnly(s) <==> |s| >= 2 && s[0] == '/' && s[1] == '*' && forall k: nat :: k >= 2 ==> !ClosesAt(s, k)
  {
    assert |s| >= 2 ==> s[..2] == [s[0], s[1]];
    forall k: nat
      ensures WordAt(s, "*/", k) <==> ClosesAt(s, k)
    {
      assert k + 1 < |s| ==> s[k..k + 2] == [s[k], s[k + 1]];
    }
  }

  /** A line, between any white space, begins a comment that goes on if and only if it
      starts with the opening mark and no closing mark comes after it. */
  lemma StartRead(space: string, text: string, tail: string)
    requires AllSpace(space) && AllSpace(tail)
    requires text == "" || (!IsSpace(text[0]) && !IsSpace(text[|text| - 1]))
    ensures StartsComment(space + text + tail) <==>
            |text| >= 2 && text[0] == '/' && text[1] == '*' && forall k: nat :: k >= 2 ==> !ClosesAt(text, k)
  {
    StripSpace(space, text, tail);
    BeginsOnlyRead(text);
  }

  /** It ends a comment if and only if it ends with the closing mark. */
  lemma EndRead(space: string, text: string, tail: string)
    requires AllSpace(space) && AllSpace(tail)
    requires text == "" || (!IsSpace(text[0]) && !IsSpace(text[|text| - 1]))
    ensures EndsComment(space + text + tail) <==> |text| >= 2 && text[|text| - 2] == '*' && text[|text| - 1] == '/'
  {
    StripSpace(space, text, tail);
    assert |text| >= 2 ==> text[|text| - 2..] == [text[|text| - 2], text[|text| - 1]];
  }

  /** How lines that begin and lines that end a comment are told. */
  datatype Marks = Marks(starts: string -> bool, ends: string -> bool)

  function CommentMarks(): Marks {
    Marks(StartsComment, EndsComment)
  }

  lemma BlankIsNoStart()
    ensures !CommentMarks().starts(BLANK)
  {
    assert Strip(BLANK) == BLANK;
    assert WordAt(BLANK, "*/", 2);
  }

  // ---------- which lines are erased ----------

  /** Line `i` lies in a comment: it begins one, or the line before it lies in one
      and does not end it. */
  ghost predicate Inside(m: Marks, lines: seq<string>, i: nat)
    requires i < |lines|
  {
    m.starts(lines[i]) || (i > 0 && Inside(m, lines, i - 1) && !m.ends(lines[i - 1]))
  }

  ghost predicate EndsLater(m: Marks, lines: seq<string>, i: nat) {
    exists j :: i <= j < |lines| && m.ends(lines[j])
  }

  /** Line `i` lies in a comment that never ends. */
  ghost predicate Dangling(m: Marks, lines: seq<string>, i: nat)
    requires i < |lines|
  {
    Inside(m, lines, i) && !EndsLater(m, lines, i)
  }

  ghost function Cleaned(m: Marks, lines: seq<string>): seq<string> {
    seq(|lines|, i requires 0 <= i < |lines| =>
          if Inside(m, lines, i) && EndsLater(m, lines, i) then BLANK else lines[i])
  }

  /** `d` is where the comment without an end begins, or the number of lines. */
  ghost predicate FirstDangling(m: Marks, lines: seq<string>, d: nat) {
    && d <= |lines|
    && (forall i :: 0 <= i < d ==> !Dangling(m, lines, i))
    && (d < |lines| ==> Dangling(m, lines, d))
  }

  /** Nothing is inside a comment up to the next start. */
  lemma {:induction false} OutsideUntil(m: Marks, lines: seq<string>, from: nat, i: nat)
    requires from <= i < |lines|
    requires from > 0 ==> !Inside(m, lines, from - 1) || m.ends(lines[from - 1])
    requires forall k :: from <= k <= i ==> !m.starts(lines[k])
    ensures !Inside(m, lines, i)
    decreases i
  {
    if from < i {
      OutsideUntil(m, lines, from, i - 1);
    }
  }

  /** From its start to its end a comment is one. */
  lemma {:induction false} InsideUntil(m: Marks, lines: seq<string>, begin: nat, i: nat)
    requires begin <= i < |lines| && m.starts(lines[begin])
    requires forall k :: begin <= k < i ==> !m.ends(lines[k])
    ensures Inside(m, lines, i)
    decreases i
  {
    if begin < i {
      InsideUntil(m, lines, begin, i - 1);
    }
  }

  lemma NoEndFrom(m: Marks, lines: seq<string>, begin: nat)
    requires begin < |lines| && m.starts(lines[begin])
    requires forall k :: begin <= k < |lines| ==> !m.ends(lines[k])
    ensures Dangling(m, lines, begin)
    ensures forall i :: begin <= i < |lines| ==> !EndsLater(m, lines, i)
  {
  }

  // ---------- idempotence ----------

  lemma FirstDanglingStarts(m: Marks, lines: seq<string>, d: nat)
    requires FirstDangling(m, lines, d) && d < |lines|
    ensures m.starts(lines[d])
  {
    if d > 0 {
      assert !Dangling(m, lines, d - 1);
    }
  }

  /** The cleaned lines begin no comment before the one that never ends, and are
      the given lines from there on. */
  lemma CleanedLine(m: Marks, lines: seq<string>, d: nat, i: nat)
    requires FirstDangling(m, lines, d) && i < |lines| && !m.starts(BLANK)
    ensures i < d ==> !m.starts(Cleaned(m, lines)[i])
    ensures i >= d ==> Cleaned(m, lines)[i] == lines[i]
  {
    if i < d {
      assert !Dangling(m, lines, i);
    }
  }

  lemma CleanedHasSameDangling(m: Marks, lines: seq<string>, d: nat)
    requires FirstDangling(m, lines, d) && !m.starts(BLANK)
    ensures FirstDangling(m, Cleaned(m, lines), d)
    ensures forall i :: 0 <= i < d ==> !Inside(m, Cleaned(m, lines), i)
    ensures forall j :: d <= j < |lines| ==> !m.ends(Cleaned(m, lines)[j])
  {
    var cleaned := Cleaned(m, lines);
    forall i | 0 <= i < |lines|
      ensures i < d ==> !m.starts(cleaned[i])
      ensures i >= d ==> cleaned[i] == lines[i]
    {
      CleanedLine(m, lines, d, i);
    }
    forall i | 0 <= i < d
      ensures !Inside(m, cleaned, i)
    {
      OutsideUntil(m, cleaned, 0, i);
    }
    if d < |lines| {
      FirstDanglingStarts(m, lines, d);
      NoEndFrom(m, cleaned, d);
    }
  }

  /** Cleaning twice is cleaning once; the comment without an end, if there is one,
      is found at the same line again, and otherwise no line begins a comment. */
  lemma CleanedTwice(m: Marks, lines: seq<string>, d: nat)
    requires FirstDangling(m, lines, d) && !m.starts(BLANK)
    ensures Cleaned(m, Cleaned(m, lines)) == Cleaned(m, lines)
    ensures FirstDangling(m, Cleaned(m, lines), d)
    ensures d == |lines| ==> forall i :: 0 <= i < |lines| ==> !m.starts(Cleaned(m, lines)[i])
  {
    var cleaned := Cleaned(m, lines);
    CleanedHasSameDangling(m, lines, d);
    assert forall i :: d <= i < |lines| ==> !EndsLater(m, cleaned, i);
    assert Cleaned(m, cleaned) == cleaned;
    forall i | 0 <= i < |lines| && d == |lines|
      ensures !m.starts(cleaned[i])
    {
      CleanedLine(m, lines, d, i);
    }
  }

  lemma OneFirstDangling(m: Marks, lines: seq<string>, d: nat, e: nat)
    requires FirstDangling(m, lines, d) && FirstDangling(m, lines, e)
    ensures d == e
  {
  }

  ghost predicate NoStart(m: Marks, lines: seq<string>) {
    forall i :: 0 <= i < |lines| ==> !m.starts(lines[i])
  }

  /** The error names the line, counted from one, where the comment without an end
      begins; there is none when every comment ends. */
  ghost predicate IsError(m: Marks, lines: seq<string>, error: Option<nat>) {
    match error
    case Some(n) => 0 < n <= |lines| && FirstDangling(m, lines, n - 1)
    case None => FirstDangling(m, lines, |lines|)
  }

  lemma ErasedTwice(m: Marks, lines: seq<string>, once: seq<string>, first: Option<nat>, second: Option<nat>)
    requires once == Cleaned(m, lines) && IsError(m, lines, first) && IsError(m, once, second)
    requires !m.starts(BLANK)
    ensures Cleaned(m, once) == once && second == first && (first.None? ==> NoStart(m, once))
  {
    var d := if first.Some? then first.value - 1 else |lines|;
    CleanedTwice(m, lines, d);
    OneFirstDangling(m, once, d, if second.Some? then second.value - 1 else |lines|);
  }

  /** Two erasures by the marks of C++ comments. */
  lemma CommentsErasedTwice(lines: seq<string>, once: seq<string>, first: Option<nat>, second: Option<nat>)
    requires once == Cleaned(CommentMarks(), lines)
    requires IsError(CommentMarks(), lines, first) && IsError(CommentMarks(), once, second)
    ensures Cleaned(CommentMarks(), once) == once && second == first
    ensures first.None? ==> NoStart(CommentMarks(), once)
  {
    BlankIsNoStart();
    ErasedTwice(CommentMarks(), lines, once, first, second);
  }

  // ---------- the loops ----------

  method FindNextMultiLineCommentStart(m: Marks, lines: array<string>, from: nat) returns (ix: nat)
    requires from <= lines.Length
    ensures from <= ix <= lines.Length
    ensures forall k :: from <= k < ix ==> !m.starts(lines[k])
    ensures ix < lines.Length ==> m.starts(lines[ix])
  {
    ix := from;
    while ix < lines.Length
      invariant from <= ix <= lines.Length
      invariant forall k :: from <= k < ix ==> !m.starts(lines[k])
    {
      if m.starts(lines[ix]) {
        return;
      }
      ix := ix + 1;
    }
  }

  method FindNextMultiLineCommentEnd(m: Marks, lines: array<string>, from: nat) returns (ix: nat)
    requires from <= lines.Length
    ensures from <= ix <= lines.Length
    ensures forall k :: from <= k < ix ==> !m.ends(lines[k])
    ensures ix < lines.Length ==> m.ends(lines[ix])
  {
    ix := from;
    while ix < lines.Length
      invariant from <= ix <= lines.Length
      invariant forall k :: from <= k < ix ==> !m.ends(lines[k])
    {
      if m.ends(lines[ix]) {
        return;
      }
      ix := ix + 1;
    }
  }

  method RemoveMultiLineCommentsFromRange(lines: array<string>, begin: nat, end: nat)
    requires begin <= end <= lines.Length
    modifies lines
    ensures forall i :: 0 <= i < lines.Length ==> lines[i] == if begin <= i < end then BLANK else old(lines[i])
  {
    for i := begin to end
      invariant forall k :: 0 <= k < lines.Length ==> lines[k] == if begin <= k < i then BLANK else old(lines[k])
    {
      lines[i] := BLANK;
    }
  }

  /** Erases what the marks delimit and answers where the range without an end
      begins, or the number of lines. */
  method EraseMarked(m: Marks, lines: array<string>) returns (dangling: nat)
    modifies lines
    ensures lines[..] == Cleaned(m, old(lines[..]))
    ensures FirstDangling(m, old(lines[..]), dangling)
  {
    ghost var given := lines[..];
    var ix := 0;
    while ix < lines.Length
      invariant ix <= lines.Length
      invariant ix > 0 ==> !Inside(m, given, ix - 1) || m.ends(given[ix - 1])
      invariant forall i :: 0 <= i < ix ==> lines[i] == Cleaned(m, given)[i] && !Dangling(m, given, i)
      invariant forall i :: ix <= i < lines.Length ==> lines[i] == given[i]
      decreases lines.Length - ix
    {
      var begin := FindNextMultiLineCommentStart(m, lines, ix);
      forall i | ix <= i < begin
        ensures !Inside(m, given, i)
      {
        OutsideUntil(m, given, ix, i);
      }
      if begin >= lines.Length {
        assert lines[..] == Cleaned(m, given);
        return lines.Length;
      }
      var end := FindNextMultiLineCommentEnd(m, lines, begin);
      if end >= lines.Length {
        NoEndFrom(m, given, begin);
        assert lines[..] == Cleaned(m, given);
        return begin;
      }
      forall i | begin <= i <= end
        ensures Inside(m, given, i) && EndsLater(m, given, i)
      {
        InsideUntil(m, given, begin, i);
      }
      RemoveMultiLineCommentsFromRange(lines, begin, end + 1);
      ix := end + 1;
    }
    assert lines[..] == Cleaned(m, given);
    return lines.Length;
  }

  /** Erases the multi-line comments in place and reports one without an end. */
  method RemoveMultiLineComments(lines: array<string>) returns (error: Option<nat>)
    modifies lines
    ensures lines[..] == Cleaned(CommentMarks(), old(lines[..]))
    ensures IsError(CommentMarks(), old(lines[..]), error)
  {
    var dangling := EraseMarked(CommentMarks(), lines);
    error := if dangling < lines.Length then Some(dangling + 1) else None;
  }

  /** Erasing a second time changes no line and reports the same error; without an
      error no line begins a comment any more. */
  method RemoveMultiLineCommentsTwice(lines: array<string>) returns (first: Option<nat>, second: Option<nat>)
    modifies lines
    ensures second == first
    ensures lines[..] == Cleaned(CommentMarks(), old(lines[..]))
    ensures first.None? ==> NoStart(CommentMarks(), lines[..])
  {
    first := RemoveMultiLineComments(lines);
    ghost var once := lines[..];
    second := RemoveMultiLineComments(lines);
    CommentsErasedTwice(old(lines[..]), once, first, second);
  }
}
