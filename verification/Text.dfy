/** Optional values and the few string operations the lint scripts use.
    Character classes are the ASCII ones. */
module Text {

  datatype Option<+T> = None | Some(value: T)

  /** The class `\s`. */
  predicate IsSpace(c: char) {
    c == ' ' || '\t' <= c <= '\r'
  }

  /** The class `\w`. */
  predicate IsWord(c: char) {
    'a' <= c <= 'z' || 'A' <= c <= 'Z' || '0' <= c <= '9' || c == '_'
  }

  function RStrip(s: string): (r: string)
    ensures r <= s
    ensures r == "" || !IsSpace(r[|r| - 1])
    ensures forall i :: |r| <= i < |s| ==> IsSpace(s[i])
  {
    if s != "" && IsSpace(s[|s| - 1]) then RStrip(s[..|s| - 1]) else s
  }

  function LStrip(s: string): (r: string)
    ensures |r| <= |s| && r == s[|s| - |r|..]
    ensures r == "" || !IsSpace(r[0])
  {
    if s != "" && IsSpace(s[0]) then LStrip(s[1..]) else s
  }

  /** The first position at or after `i` that holds no white space. */
  function SkipSpaces(s: string, i: nat): (r: nat)
    requires i <= |s|
    ensures i <= r <= |s| && (r < |s| ==> !IsSpace(s[r]))
    ensures forall k :: i <= k < r ==> IsSpace(s[k])
    decreases |s| - i
  {
    if i < |s| && IsSpace(s[i]) then SkipSpaces(s, i + 1) else i
  }

  function Count(s: string, c: char): nat {
    if s == "" then 0 else (if s[0] == c then 1 else 0) + Count(s[1..], c)
  }

  /** The first comma at or after `i`, or the end. */
  function NextComma(s: string, i: nat): (r: nat)
    requires i <= |s|
    ensures i <= r <= |s| && (r < |s| ==> s[r] == ',')
    decreases |s| - i
  {
    if i == |s| || s[i] == ',' then i else NextComma(s, i + 1)
  }

  /** The pieces of `s[i..]` between commas. */
  function Split(s: string, i: nat): seq<string>
    requires i <= |s|
    decreases |s| - i
  {
    var k := NextComma(s, i);
    if k == |s| then [s[i..]] else [s[i..k]] + Split(s, k + 1)
  }

  predicate WordAt(s: string, word: string, i: nat) {
    i + |word| <= |s| && s[i..i + |word|] == word
  }

  function Strip(s: string): string {
    RStrip(LStrip(s))
  }

  predicate StartsWith(s: string, prefix: string) {
    prefix <= s
  }

  predicate EndsWith(s: string, suffix: string) {
    |suffix| <= |s| && s[|s| - |suffix|..] == suffix
  }

  /** `word` ends at `k` in `s` and does not continue a longer word on its left. */
  predicate WordEndsAt(s: string, word: string, k: nat) {
    |word| <= k <= |s| && s[k - |word|..k] == word && (k == |word| || !IsWord(s[k - |word| - 1]))
  }

  /** `\boperator\s*$` is found in `s`. */
  predicate EndsWithOperator(s: string) {
    exists k :: 0 <= k <= |s| && WordEndsAt(s, "operator", k) && forall j :: k <= j < |s| ==> IsSpace(s[j])
  }

  /** The character before a position that follows the keyword `operator`
      is white space or the keyword's last letter. */
  lemma OperatorTail(s: string)
    requires EndsWithOperator(s)
    ensures |s| > 0 && (IsSpace(s[|s| - 1]) || s[|s| - 1] == 'r')
  {
    var k: nat :| k <= |s| && WordEndsAt(s, "operator", k) && forall j :: k <= j < |s| ==> IsSpace(s[j]);
    assert s[k - 8..k][7] == 'r';
  }

  predicate AllSpace(s: string) {
    forall i :: 0 <= i < |s| ==> IsSpace(s[i])
  }

  /** A word may begin after `s`. */
  predicate EndsWord(s: string) {
    s == "" || !IsWord(s[|s| - 1])
  }

  lemma KeywordLast(s: string, k: nat)
    requires WordEndsAt(s, "operator", k)
    ensures k >= 8 && s[k - 1] == 'r'
  {
    assert s[k - 8..k][7] == 'r';
  }

  lemma KeywordEndsOnce(s: string, n: nat, k: nat)
    requires 0 < n <= |s| && s[n - 1] == 'r' && forall j :: n <= j < |s| ==> IsSpace(s[j])
    requires 0 < k <= |s| && s[k - 1] == 'r' && forall j :: k <= j < |s| ==> IsSpace(s[j])
    ensures k == n
  {
  }

  /** The keyword and white space after it are found exactly when no longer word ends
      with the keyword. */
  lemma OperatorEnds(before: string, gap: string)
    requires AllSpace(gap)
    ensures EndsWithOperator(before + "operator" + gap) <==> EndsWord(before)
  {
    var s, n := before + "operator" + gap, |before| + 8;
    assert s[n - 8..n] == "operator" && s[n..] == gap && s[..n - 8] == before;
    assert s[n - 8..n][7] == s[n - 1] == 'r';
    assert |before| > 0 ==> s[n - 9] == before[|before| - 1];
    assert WordEndsAt(s, "operator", n) <==> EndsWord(before);
    assert forall j :: n <= j < |s| ==> s[j] == gap[j - n];
    if EndsWithOperator(s) {
      var k: nat :| k <= |s| && WordEndsAt(s, "operator", k) && forall j :: k <= j < |s| ==> IsSpace(s[j]);
      KeywordLast(s, k);
      KeywordEndsOnce(s, n, k);
    }
  }

  lemma {:induction false} LStripSpace(space: string, s: string)
    requires AllSpace(space) && (s == "" || !IsSpace(s[0]))
    ensures LStrip(space + s) == s
  {
    if space == "" {
      assert space + s == s;
    } else {
      assert (space + s)[1..] == space[1..] + s;
      LStripSpace(space[1..], s);
    }
  }

  lemma {:induction false} CountConcat(a: string, b: string, c: char)
    ensures Count(a + b, c) == Count(a, c) + Count(b, c)
  {
    if a == "" {
      assert a + b == b;
    } else {
      assert (a + b)[1..] == a[1..] + b;
      CountConcat(a[1..], b, c);
    }
  }

  lemma {:induction false} CountNone(s: string, c: char)
    requires c !in s
    ensures Count(s, c) == 0
  {
    if s != "" {
      CountNone(s[1..], c);
    }
  }

  lemma CountFrom(s: string, k: nat, c: char)
    requires k <= |s| && c !in s[..k]
    ensures Count(s, c) == Count(s[k..], c)
  {
    assert s == s[..k] + s[k..];
    CountConcat(s[..k], s[k..], c);
    CountNone(s[..k], c);
  }

  lemma {:induction false} RStripSpace(s: string, space: string)
    requires AllSpace(space) && (s == "" || !IsSpace(s[|s| - 1]))
    ensures RStrip(s + space) == s
  {
    if space == "" {
      assert s + space == s;
    } else {
      assert (s + space)[..|s + space| - 1] == s + space[..|space| - 1];
      RStripSpace(s, space[..|space| - 1]);
    }
  }

  lemma StripSpace(space: string, s: string, tail: string)
    requires AllSpace(space) && AllSpace(tail) && (s == "" || (!IsSpace(s[0]) && !IsSpace(s[|s| - 1])))
    ensures Strip(space + s + tail) == s
  {
    if s == "" {
      assert space + s + tail == (space + tail) + "";
      LStripSpace(space + tail, "");
    } else {
      assert space + s + tail == space + (s + tail);
      LStripSpace(space, s + tail);
      RStripSpace(s, tail);
    }
  }

  lemma {:induction false} NextCommaShifted(before: string, s: string, i: nat)
    requires i <= |s|
    ensures NextComma(before + s, |before| + i) == |before| + NextComma(s, i)
    decreases |s| - i
  {
    if i < |s| && s[i] != ',' {
      NextCommaShifted(before, s, i + 1);
    }
  }

  lemma SliceShifted(before: string, s: string, i: nat, k: nat)
    requires i <= k <= |s|
    ensures (before + s)[|before| + i..|before| + k] == s[i..k] && (before + s)[|before| + i..] == s[i..]
  {
  }

  lemma {:induction false} SplitShifted(before: string, s: string, i: nat)
    requires i <= |s|
    ensures Split(before + s, |before| + i) == Split(s, i)
    decreases |s| - i
  {
    var k := NextComma(s, i);
    NextCommaShifted(before, s, i);
    SliceShifted(before, s, i, k);
    if k < |s| {
      SplitShifted(before, s, k + 1);
    }
  }

  lemma {:induction false} FirstComma(piece: string, rest: string, i: nat)
    requires ',' !in piece && i <= |piece| && (rest == "" || rest[0] == ',')
    ensures NextComma(piece + rest, i) == |piece|
    decreases |piece| - i
  {
    if i < |piece| {
      FirstComma(piece, rest, i + 1);
    }
  }

  lemma SplitAtComma(piece: string, rest: string)
    requires ',' !in piece
    ensures Split(piece, 0) == [piece]
    ensures Split(piece + "," + rest, 0) == [piece] + Split(rest, 0)
  {
    FirstComma(piece, "", 0);
    assert piece + "" == piece;
    FirstComma(piece, "," + rest, 0);
    var all := piece + "," + rest;
    assert all == piece + ("," + rest) && all[0..|piece|] == piece;
    SplitShifted(piece + ",", rest, 0);
  }
}
