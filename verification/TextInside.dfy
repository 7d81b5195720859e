/** The second bracket matcher of cpplint, which works on one text and keeps the
    closing brackets it expects. */
module TextInside {
  import opened Text
  import opened Brackets
  import opened Lines
  import opened ForwardMatch

  function CloserOf(c: char): char
    requires IsOpener(c)
  {
    if c == '(' then ')' else if c == '[' then ']' else '}'
  }

  lemma ScanOneText(text: string, start: nat)
    requires 0 < start <= |text| && IsOpener(text[start - 1])
    ensures match ScanEnd(text, start - 1, [])
            case Found(e) => start < e <= |text| && MatchForward(text, start, [text[start - 1]]) == Some(e)
            case _ => MatchForward(text, start, [text[start - 1]]) == None
  {
    var marks, c := MarkLine(text), text[start - 1];
    var none: string := [];
    assert none + [c] == [c] && Token(text, start - 1) == c;
    ScanEndIsTokenScan(marks, 0, text, start, [c]);
    WithoutOne(c, '<');
    TokenScanRefines(marks, start, [c]);
    assert forall i :: 0 <= i < |text| ==> marks[i] == Token(text, i);
    MatchForwardSeesBrackets(text, marks, start, [c]);
  }

  /** The matcher with a stack of expected closers agrees with the scanner: it
      returns the text up to the end the scanner finds, and nothing when the
      scanner fails or runs out of text. */
  method GetTextInside(text: string, matchEnd: Option<nat>) returns (inside: Option<string>)
    requires matchEnd.Some? ==> 0 < matchEnd.value <= |text| && IsOpener(text[matchEnd.value - 1])
    ensures matchEnd == None ==> inside == None
    ensures matchEnd.Some? ==>
              match ScanEnd(text, matchEnd.value - 1, [])
              case Found(e) => matchEnd.value < e <= |text| && inside == Some(text[matchEnd.value..e - 1])
              case _ => inside == None
  {
    if matchEnd == None {
      return None;
    }
    var start := matchEnd.value;
    var expected := [CloserOf(text[start - 1])];
    ghost var openers := [text[start - 1]];
    ScanOneText(text, start);
    ghost var answer := MatchForward(text, start, openers);
    var position := start;
    while expected != [] && position < |text|
      invariant start <= position <= |text| && |openers| == |expected|
      invariant forall i :: 0 <= i < |expected| ==> IsOpener(openers[i]) && expected[i] == CloserOf(openers[i])
      invariant answer == if expected == [] then Some(position) else MatchForward(text, position, openers)
      invariant expected == [] ==> start < position
      decreases |text| - position
    {
      var c := text[position];
      if c == Top(expected) {
        expected := Pop(expected);
        openers := Pop(openers);
      } else if IsCloser(c) {
        return None;
      } else if IsOpener(c) {
        expected := expected + [CloserOf(c)];
        openers := openers + [c];
      }
      position := position + 1;
    }
    if expected != [] {
      return None;
    }
    return Some(text[start..position - 1]);
  }
}
