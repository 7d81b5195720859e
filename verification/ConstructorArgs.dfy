/** How cpplint recovers the arguments of a constructor: it splits them at every
    comma and then glues the pieces of one argument together again. */
module ConstructorArgs {
  import opened Text

  /** More `<` than `>`, or more `(` than `)`. */
  predicate Unfinished(s: string) {
    Count(s, '<') > Count(s, '>') || Count(s, '(') > Count(s, ')')
  }

  function Join(pieces: seq<string>): string {
    if pieces == [] then ""
    else if |pieces| == 1 then pieces[0]
    else pieces[0] + "," + Join(pieces[1..])
  }

  /** Glues pieces until each one is finished; fails when the pieces run out. */
  function Glue(pieces: seq<string>): Option<seq<string>>
    decreases |pieces|
  {
    if pieces == [] then Some([])
    else if !Unfinished(pieces[0]) then
      match Glue(pieces[1..])
      case None => None
      case Some(rest) => Some([pieces[0]] + rest)
    else if |pieces| == 1 then None
    else Glue([pieces[0] + "," + pieces[1]] + pieces[2..])
  }

  // ---------- the arguments ----------

  /** How many more `open` than `close` come before `i`. */
  function Depth(s: string, i: nat, open: char, close: char): int
    requires i <= |s|
  {
    if i == 0 then 0
    else Depth(s, i - 1, open, close) + if s[i - 1] == open then 1 else if s[i - 1] == close then -1 else 0
  }

  function Angles(s: string, i: nat): int
    requires i <= |s|
  {
    Depth(s, i, '<', '>')
  }

  function Parens(s: string, i: nat): int
    requires i <= |s|
  {
    Depth(s, i, '(', ')')
  }

  /** At `j` neither kind of bracket is deeper than at `i`. */
  predicate NoDeeper(s: string, i: nat, j: nat)
    requires i <= |s| && j <= |s|
  {
    Angles(s, j) <= Angles(s, i) && Parens(s, j) <= Parens(s, i)
  }

  /** The arguments of `s[start..]`: each one is cut at the first comma that is no
      deeper than its start.  No such comma lies in `s[start..i]`. */
  function Arguments(s: string, start: nat, i: nat): seq<string>
    requires start <= i <= |s|
    decreases |s| - i
  {
    if i == |s| then [s[start..]]
    else if s[i] == ',' && NoDeeper(s, start, i) then [s[start..i]] + Arguments(s, i + 1, i + 1)
    else Arguments(s, start, i + 1)
  }

  /** Where the last of these arguments starts. */
  function LastArgument(s: string, start: nat, i: nat): (r: nat)
    requires start <= i <= |s|
    ensures start <= r <= |s|
    decreases |s| - i
  {
    if i == |s| then start
    else if s[i] == ',' && NoDeeper(s, start, i) then LastArgument(s, i + 1, i + 1)
    else LastArgument(s, start, i + 1)
  }

  lemma {:induction false} CountsAreDepths(s: string, i: nat, j: nat, open: char, close: char)
    requires i <= j <= |s| && open != close
    ensures Count(s[i..j], open) - Count(s[i..j], close) == Depth(s, j, open, close) - Depth(s, i, open, close)
    decreases j - i
  {
    if i < j {
      CountsAreDepths(s, i + 1, j, open, close);
      assert s[i..j][1..] == s[i + 1..j];
    }
  }

  lemma UnfinishedIsDeeper(s: string, i: nat, j: nat)
    requires i <= j <= |s|
    ensures Unfinished(s[i..j]) <==> !NoDeeper(s, i, j)
  {
    CountsAreDepths(s, i, j, '<', '>');
    CountsAreDepths(s, i, j, '(', ')');
  }

  lemma {:induction false} ArgumentsSkip(s: string, start: nat, i: nat)
    requires start <= i <= |s|
    ensures Arguments(s, start, i) == Arguments(s, start, NextComma(s, i))
    ensures LastArgument(s, start, i) == LastArgument(s, start, NextComma(s, i))
    decreases |s| - i
  {
    if i < |s| && s[i] != ',' {
      ArgumentsSkip(s, start, i + 1);
    }
  }

  /** The piece `s[start..k]`, where `k` is a comma or the end, and the pieces after it. */
  function Pieces(s: string, start: nat, k: nat): seq<string>
    requires start <= k <= |s|
  {
    [s[start..k]] + if k == |s| then [] else Split(s, k + 1)
  }

  lemma SplitIsPieces(s: string, i: nat)
    requires i <= |s|
    ensures Split(s, i) == Pieces(s, i, NextComma(s, i))
  {
    assert s[i..|s|] == s[i..];
  }

  lemma GlueFinished(piece: string, rest: seq<string>)
    requires !Unfinished(piece)
    ensures Glue([piece] + rest)
         == match Glue(rest) case None => None case Some(r) => Some([piece] + r)
  {
    assert ([piece] + rest)[1..] == rest;
  }

  lemma GlueUnfinished(piece: string, next: string, rest: seq<string>)
    requires Unfinished(piece)
    ensures Glue([piece] + ([next] + rest)) == Glue([piece + "," + next] + rest)
  {
    var all := [piece] + ([next] + rest);
    assert all[2..] == rest && all[1] == next;
  }

  function Expected(s: string, start: nat, k: nat): Option<seq<string>>
    requires start <= k <= |s|
  {
    if NoDeeper(s, LastArgument(s, start, k), |s|) then Some(Arguments(s, start, k)) else None
  }

  lemma ExpectedSkips(s: string, start: nat, i: nat)
    requires start <= i <= |s|
    ensures Expected(s, start, i) == Expected(s, start, NextComma(s, i))
  {
    ArgumentsSkip(s, start, i);
  }

  lemma ExpectedDeeper(s: string, start: nat, k: nat)
    requires start <= k < |s| && !NoDeeper(s, start, k)
    ensures Expected(s, start, k) == Expected(s, start, NextComma(s, k + 1))
  {
    ExpectedSkips(s, start, k + 1);
  }

  lemma GlueLastPiece(s: string, start: nat)
    requires start <= |s|
    requires Unfinished(s[start..|s|]) <==> !NoDeeper(s, start, |s|)
    ensures Glue(Pieces(s, start, |s|)) == Expected(s, start, |s|)
  {
    var piece := s[start..|s|];
    assert Pieces(s, start, |s|) == [piece] && [piece][1..] == [] && s[start..] == piece;
    assert Glue([piece][1..]) == Some([]);
  }

  lemma GlueFinishedPiece(s: string, start: nat, k: nat)
    requires start <= k < |s| && s[k] == ',' && NoDeeper(s, start, k) && !Unfinished(s[start..k])
    requires Glue(Split(s, k + 1)) == Expected(s, k + 1, k + 1)
    ensures Glue(Pieces(s, start, k)) == Expected(s, start, k)
  {
    GlueFinished(s[start..k], Split(s, k + 1));
    assert Arguments(s, start, k) == [s[start..k]] + Arguments(s, k + 1, k + 1);
  }

  lemma JoinedAtComma(s: string, start: nat, k: nat, next: nat)
    requires start <= k < next <= |s| && s[k] == ','
    ensures s[start..k] + "," + s[k + 1..next] == s[start..next]
  {
  }

  /** The pieces after the comma at `next`, or none. */
  function Later(s: string, next: nat): seq<string>
    requires next <= |s|
  {
    if next == |s| then [] else Split(s, next + 1)
  }

  lemma SplitOne(s: string, k: nat)
    requires k < |s|
    ensures var next := NextComma(s, k + 1); Split(s, k + 1) == [s[k + 1..next]] + Later(s, next)
  {
    SplitIsPieces(s, k + 1);
  }

  lemma GlueUnfinishedPiece(s: string, start: nat, k: nat, next: nat)
    requires start <= k < |s| && s[k] == ',' && Unfinished(s[start..k]) && next == NextComma(s, k + 1)
    ensures Glue(Pieces(s, start, k)) == Glue(Pieces(s, start, next))
  {
    var rest := Later(s, next);
    SplitOne(s, k);
    GlueUnfinished(s[start..k], s[k + 1..next], rest);
    JoinedAtComma(s, start, k, next);
    assert Pieces(s, start, next) == [s[start..next]] + rest;
  }

  lemma GlueAtArgumentEnd(s: string, start: nat, k: nat, next: nat)
    requires start <= k < |s| && s[k] == ',' && next == NextComma(s, k + 1) && NoDeeper(s, start, k)
    requires Glue(Pieces(s, k + 1, next)) == Expected(s, k + 1, next)
    ensures Glue(Pieces(s, start, k)) == Expected(s, start, k)
  {
    UnfinishedIsDeeper(s, start, k);
    ExpectedSkips(s, k + 1, k + 1);
    SplitIsPieces(s, k + 1);
    GlueFinishedPiece(s, start, k);
  }

  lemma GlueInsideArgument(s: string, start: nat, k: nat, next: nat)
    requires start <= k < |s| && s[k] == ',' && next == NextComma(s, k + 1) && !NoDeeper(s, start, k)
    requires Glue(Pieces(s, start, next)) == Expected(s, start, next)
    ensures Glue(Pieces(s, start, k)) == Expected(s, start, k)
  {
    UnfinishedIsDeeper(s, start, k);
    GlueUnfinishedPiece(s, start, k, next);
    ExpectedDeeper(s, start, k);
  }

  lemma {:induction false} GlueFollowsArguments(s: string, start: nat, k: nat)
    requires start <= k <= |s| && (k < |s| ==> s[k] == ',')
    ensures Glue(Pieces(s, start, k)) == Expected(s, start, k)
    decreases |s| - k
  {
    if k == |s| {
      UnfinishedIsDeeper(s, start, k);
      GlueLastPiece(s, start);
    } else if NoDeeper(s, start, k) {
      GlueFollowsArguments(s, k + 1, NextComma(s, k + 1));
      GlueAtArgumentEnd(s, start, k, NextComma(s, k + 1));
    } else {
      GlueFollowsArguments(s, start, NextComma(s, k + 1));
      GlueInsideArgument(s, start, k, NextComma(s, k + 1));
    }
  }

  /** For every text: each argument ends at the first comma that is no deeper than
      its start, and the gluing runs past the end of its list if and only if the end
      of the text is deeper than the start of the last argument. */
  lemma GlueIsArguments(s: string)
    ensures Glue(Split(s, 0)) == if NoDeeper(s, LastArgument(s, 0, 0), |s|) then Some(Arguments(s, 0, 0)) else None
  {
    SplitIsPieces(s, 0);
    ArgumentsSkip(s, 0, 0);
    GlueFollowsArguments(s, 0, NextComma(s, 0));
  }

  // ---------- texts without stray closers ----------

  predicate TopLevel(s: string, i: nat)
    requires i <= |s|
  {
    Angles(s, i) == 0 && Parens(s, i) == 0
  }

  /** No closing bracket comes before its opening one. */
  ghost predicate NoStrayCloser(s: string) {
    forall i :: 0 <= i <= |s| ==> Angles(s, i) >= 0 && Parens(s, i) >= 0
  }

  /** The pieces of `s[start..]` between top-level commas, when no top-level comma
      lies in `s[start..i]`. */
  function TopSplit(s: string, start: nat, i: nat): seq<string>
    requires start <= i <= |s|
    decreases |s| - i
  {
    if i == |s| then [s[start..]]
    else if s[i] == ',' && TopLevel(s, i) then [s[start..i]] + TopSplit(s, i + 1, i + 1)
    else TopSplit(s, start, i + 1)
  }

  lemma {:induction false} ArgumentsAreTopSplit(s: string, start: nat, i: nat)
    requires start <= i <= |s| && NoStrayCloser(s) && TopLevel(s, start)
    ensures Arguments(s, start, i) == TopSplit(s, start, i) && TopLevel(s, LastArgument(s, start, i))
    decreases |s| - i
  {
    if i < |s| {
      assert Angles(s, i) >= 0 && Parens(s, i) >= 0;
      if s[i] == ',' && TopLevel(s, i) {
        ArgumentsAreTopSplit(s, i + 1, i + 1);
      } else {
        ArgumentsAreTopSplit(s, start, i + 1);
      }
    }
  }

  /** The arguments of a constructor whose text has no stray closer are its parts
      between top-level commas, if all its brackets are closed; otherwise the
      gluing fails. */
  lemma ArgumentsAreTopLevel(s: string)
    requires NoStrayCloser(s)
    ensures Glue(Split(s, 0)) == if TopLevel(s, |s|) then Some(TopSplit(s, 0, 0)) else None
  {
    GlueIsArguments(s);
    ArgumentsAreTopSplit(s, 0, 0);
    assert Angles(s, |s|) >= 0 && Parens(s, |s|) >= 0;
  }

  // ---------- all texts ----------

  lemma JoinCons(piece: string, rest: seq<string>)
    ensures Join([piece] + rest) == if rest == [] then piece else piece + "," + Join(rest)
  {
    assert ([piece] + rest)[1..] == rest;
  }

  lemma CutAtComma(s: string, i: nat, k: nat)
    requires i <= k < |s| && s[k] == ','
    ensures s[i..] == s[i..k] + "," + s[k + 1..]
  {
    assert s[i..k] + "," + s[k + 1..] == s[i..k] + [s[k]] + s[k + 1..];
  }

  lemma {:induction false} SplitJoins(s: string, i: nat)
    requires i <= |s|
    ensures Split(s, i) != [] && Join(Split(s, i)) == s[i..]
    decreases |s| - i
  {
    var k := NextComma(s, i);
    if k < |s| {
      var piece, rest := s[i..k], Split(s, k + 1);
      SplitJoins(s, k + 1);
      JoinCons(piece, rest);
      CutAtComma(s, i, k);
    }
  }

  /** Whatever the text, arguments that are recovered join back to it, and each of
      them is finished. */
  lemma {:induction false} GlueJoins(pieces: seq<string>)
    ensures Glue(pieces).Some? ==>
              var r := Glue(pieces).value;
              && (r == [] <==> pieces == []) && Join(r) == Join(pieces)
              && forall i :: 0 <= i < |r| ==> !Unfinished(r[i])
    decreases |pieces|
  {
    if pieces != [] {
      var piece, rest := pieces[0], pieces[1..];
      assert pieces == [piece] + rest;
      if !Unfinished(piece) {
        GlueJoins(rest);
        JoinCons(piece, rest);
        if Glue(rest).Some? {
          JoinCons(piece, Glue(rest).value);
        }
      } else if rest != [] {
        var glued := piece + "," + rest[0];
        assert pieces[2..] == rest[1..] && rest == [rest[0]] + rest[1..];
        GlueJoins([glued] + pieces[2..]);
        JoinCons(piece, rest);
        JoinCons(rest[0], rest[1..]);
        JoinCons(glued, rest[1..]);
      }
    }
  }

  lemma ArgumentsJoinBack(s: string)
    requires Glue(Split(s, 0)).Some?
    ensures Join(Glue(Split(s, 0)).value) == s
  {
    SplitJoins(s, 0);
    GlueJoins(Split(s, 0));
  }

  /** A default value that compares with `<` runs out of pieces. */
  lemma ComparisonRunsOut()
    ensures Glue(Split("a<b", 0)) == None
  {
    var s := "a<b";
    assert NextComma(s, 0) == NextComma(s, 1) == NextComma(s, 2) == 3;
    assert Split(s, 0) == [s];
    CountsAreDepths(s, 0, 3, '<', '>');
    assert Depth(s, 3, '<', '>') == Depth(s, 2, '<', '>') == 1;
    assert s[0..3] == s;
  }

  /** An arrow closes what a later comparison opens: the counts of the whole text
      agree, and still the pieces run out. */
  lemma ArrowThenComparisonRunsOut()
    ensures TopLevel("p->x,c<d", 8)
    ensures Glue(Split("p->x,c<d", 0)) == None
  {
    var s := "p->x,c<d";
    assert Angles(s, 1) == Angles(s, 2) == 0 && Angles(s, 3) == Angles(s, 4) == Angles(s, 5) == Angles(s, 6) == -1;
    assert Angles(s, 7) == Angles(s, 8) == 0;
    assert Parens(s, 1) == Parens(s, 2) == Parens(s, 3) == Parens(s, 4) == 0;
    assert Parens(s, 5) == Parens(s, 6) == Parens(s, 7) == Parens(s, 8) == 0;
    assert LastArgument(s, 0, 0) == LastArgument(s, 0, 2) == LastArgument(s, 0, 4) == LastArgument(s, 5, 5);
    assert LastArgument(s, 5, 5) == LastArgument(s, 5, 6) == LastArgument(s, 5, 7) == LastArgument(s, 5, 8) == 5;
    GlueIsArguments(s);
  }

  // ---------- the loop ----------

  method SplitAtCommas(s: string) returns (pieces: seq<string>)
    ensures pieces == Split(s, 0)
  {
    pieces := [];
    var i := 0;
    while true
      invariant i <= |s| && Split(s, 0) == pieces + Split(s, i)
      decreases |s| - i
    {
      var k := NextComma(s, i);
      if k == |s| {
        pieces := pieces + [s[i..]];
        return;
      }
      assert pieces + Split(s, i) == (pieces + [s[i..k]]) + Split(s, k + 1);
      pieces, i := pieces + [s[i..k]], k + 1;
    }
  }

  function GlueAfter(done: seq<string>, pieces: seq<string>): Option<seq<string>> {
    match Glue(pieces)
    case None => None
    case Some(r) => Some(done + r)
  }

  lemma GlueAfterFinished(done: seq<string>, piece: string, rest: seq<string>)
    requires !Unfinished(piece)
    ensures GlueAfter(done, [piece] + rest) == GlueAfter(done + [piece], rest)
  {
    GlueFinished(piece, rest);
    if Glue(rest).Some? {
      assert done + ([piece] + Glue(rest).value) == (done + [piece]) + Glue(rest).value;
    }
  }

  /** Recovers the arguments, or fails where the list index would be past the end. */
  method ConstructorArguments(text: string) returns (result: Option<seq<string>>)
    ensures result == if text == "" then Some([]) else Glue(Split(text, 0))
  {
    if text == "" {
      return Some([]);
    }
    var args := SplitAtCommas(text);
    ghost var answer := Glue(args);
    var i := 0;
    assert args[..0] == [] && args[0..] == args;
    assert answer == GlueAfter([], args) by {
      if answer.Some? {
        assert [] + answer.value == answer.value;
      }
    }
    while i < |args|
      invariant i <= |args| && answer == GlueAfter(args[..i], args[i..])
      decreases |args| - i
    {
      var arg := args[i];
      assert args[i..] == [arg] + args[i + 1..];
      while Unfinished(arg)
        invariant i < |args| && answer == GlueAfter(args[..i], [arg] + args[i + 1..])
        decreases |args|
      {
        if i + 1 >= |args| {
          assert [arg] + args[i + 1..] == [arg];
          return None;
        }
        var next, rest := args[i + 1], args[i + 2..];
        assert args[i + 1..] == [next] + rest;
        GlueUnfinished(arg, next, rest);
        arg := arg + "," + next;
        ghost var before := args[..i];
        args := args[..i + 1] + rest;
        assert args[..i] == before && args[i + 1..] == rest;
      }
      GlueAfterFinished(args[..i], arg, args[i + 1..]);
      ghost var before, rest := args[..i], args[i + 1..];
      args := args[i := arg];
      i := i + 1;
      assert args[..i] == before + [arg] && args[i..] == rest;
    }
    assert args[i..] == [] && args[..i] + [] == args;
    return Some(args);
  }
}
