/** The look-ahead that decides whether a class keyword stands in a template
    argument list. */
module Lookahead {
  import opened Lines
  import opened ForwardMatch

  // ---------- every answer lies after its start ----------

  lemma {:induction false} ScanEndAdvances(line: string, i: nat, stack: string)
    requires ScanEnd(line, i, stack).Found?
    ensures i < ScanEnd(line, i, stack).pos <= |line|
    decreases |line| - i
  {
    var step := Step(Token(line, i), i + 1, stack);
    if step.Open? {
      ScanEndAdvances(line, i + 1, step.stack);
    }
  }

  lemma {:induction false} FollowAdvances(lines: seq<string>, l: nat, stack: string)
    requires l < |lines| && FollowForward(lines, l, Open(stack)).At?
    ensures var r := FollowForward(lines, l, Open(stack)); l < r.line < |lines| && 0 < r.pos <= |lines[r.line]|
    decreases |lines| - l
  {
    var scan := ScanEnd(lines[l + 1], 0, stack);
    match scan {
      case Found(_) => ScanEndAdvances(lines[l + 1], 0, stack);
      case Open(s) => FollowAdvances(lines, l + 1, s);
    }
  }

  lemma CloseAdvances(lines: seq<string>, l: nat, p: nat)
    requires l < |lines| && p < |lines[l]| && Close(lines, l, p).At?
    ensures var r := Close(lines, l, p);
            && l <= r.line < |lines| && 0 < r.pos <= |lines[r.line]|
            && (r.line == l ==> p + 1 < r.pos)
  {
    var step := Step(Token(lines[l], p), p + 1, []);
    var scan := ScanEnd(lines[l], p + 1, step.stack);
    match scan {
      case Found(_) => ScanEndAdvances(lines[l], p + 1, step.stack);
      case Open(s) => FollowAdvances(lines, l, s);
    }
  }

  // ---------- InTemplateArgumentList ----------

  predicate IsStop(c: char) {
    c in "{};=[].<>"
  }

  /** The first stop character at or after `p`. */
  function NextStop(line: string, p: nat): (r: nat)
    ensures p <= r
    ensures r < |line| ==> IsStop(line[r])
    ensures forall i :: p <= i < r && i < |line| ==> !IsStop(line[i])
    decreases |line| - p
  {
    if p >= |line| || IsStop(line[p]) then p else NextStop(line, p + 1)
  }

  function CharactersLeft(lines: seq<string>, l: nat, p: nat): nat {
    if l < |lines| && p <= |lines[l]| then |lines[l]| - p else 0
  }

  /** Looks for the first stop character, skipping whole `<...>` lists. */
  function InArguments(lines: seq<string>, l: nat, p: nat): bool
    decreases |lines| - l, CharactersLeft(lines, l, p)
  {
    if l >= |lines| then false
    else
      var s := NextStop(lines[l], p);
      if s >= |lines[l]| then InArguments(lines, l + 1, 0)
      else if lines[l][s] in "{};" then false
      else if lines[l][s] != '<' then true
      else
        match Close(lines, l, s)
        case NotFound => false
        case At(m, e) => CloseAdvances(lines, l, s); InArguments(lines, m, e)
  }

  // ---------- what is accepted ----------

  /** One hop of the look-ahead: over the end of a line, over a character that is no
      stop, or over a whole list that CloseExpression closes. */
  predicate Hop(lines: seq<string>, a: Place, b: Place) {
    a.At? && a.line < |lines| &&
    var line := lines[a.line];
    if a.pos >= |line| then b == At(a.line + 1, 0)
    else if line[a.pos] !in "{};=[].<>" then b == At(a.line, a.pos + 1)
    else line[a.pos] == '<' && b.At? && b == Close(lines, a.line, a.pos)
  }

  predicate Accepts(lines: seq<string>, a: Place) {
    a.At? && a.line < |lines| && a.pos < |lines[a.line]| && lines[a.line][a.pos] in ">=[]."
  }

  /** A way from `(l, p)` to a character that accepts. */
  ghost predicate IsTrail(lines: seq<string>, l: nat, p: nat, trail: seq<Place>) {
    && trail != [] && trail[0] == At(l, p)
    && (forall i :: 0 < i < |trail| ==> Hop(lines, trail[i - 1], trail[i]))
    && Accepts(lines, trail[|trail| - 1])
  }

  lemma HopKeeps(lines: seq<string>, a: Place, b: Place)
    requires Hop(lines, a, b) && b.At?
    ensures InArguments(lines, a.line, a.pos) == InArguments(lines, b.line, b.pos)
  {
  }

  lemma {:induction false} TrailAccepted(lines: seq<string>, l: nat, p: nat, trail: seq<Place>)
    requires IsTrail(lines, l, p, trail)
    ensures InArguments(lines, l, p)
    decreases |trail|
  {
    if |trail| > 1 {
      assert Hop(lines, trail[0], trail[1]);
      var rest, next := trail[1..], trail[1];
      assert next.At?;
      HopKeeps(lines, trail[0], next);
      assert forall i :: 0 < i < |rest| ==> rest[i - 1] == trail[i] && rest[i] == trail[i + 1];
      TrailAccepted(lines, next.line, next.pos, rest);
    }
  }

  lemma TrailGrows(lines: seq<string>, l: nat, p: nat, next: Place, trail: seq<Place>)
    requires next.At? && Hop(lines, At(l, p), next) && IsTrail(lines, next.line, next.pos, trail)
    ensures IsTrail(lines, l, p, [At(l, p)] + trail)
  {
    var longer := [At(l, p)] + trail;
    forall i | 0 < i < |longer|
      ensures Hop(lines, longer[i - 1], longer[i])
    {
      assert i > 1 ==> Hop(lines, trail[i - 2], trail[i - 1]);
    }
  }

  lemma {:induction false} AcceptedHasTrail(lines: seq<string>, l: nat, p: nat) returns (trail: seq<Place>)
    requires InArguments(lines, l, p)
    ensures IsTrail(lines, l, p, trail)
    decreases |lines| - l, CharactersLeft(lines, l, p)
  {
    var line := lines[l];
    if p < |line| && line[p] in ">=[]." {
      trail := [At(l, p)];
    } else {
      var next := if p >= |line| then At(l + 1, 0) else if !IsStop(line[p]) then At(l, p + 1) else Close(lines, l, p);
      if p < |line| && line[p] == '<' {
        CloseAdvances(lines, l, p);
      }
      HopKeeps(lines, At(l, p), next);
      trail := AcceptedHasTrail(lines, next.line, next.pos);
      TrailGrows(lines, l, p, next, trail);
      trail := [At(l, p)] + trail;
    }
  }

  /** A position is accepted if and only if `>`, `=`, `[`, `]` or `.` is reached from
      it over characters that are no stops and whole closed lists. */
  lemma AcceptedIffTrail(lines: seq<string>, l: nat, p: nat)
    ensures InArguments(lines, l, p) <==> exists trail :: IsTrail(lines, l, p, trail)
  {
    if InArguments(lines, l, p) {
      var trail := AcceptedHasTrail(lines, l, p);
    }
    forall trail | IsTrail(lines, l, p, trail)
      ensures InArguments(lines, l, p)
    {
      TrailAccepted(lines, l, p, trail);
    }
  }

  /** The loop stops on every file and position: each turn leaves fewer lines,
      or fewer characters on the line it is on. */
  method InTemplateArgumentList(lines: seq<string>, linenum: nat, pos: nat) returns (inside: bool)
    ensures inside <==> exists trail :: IsTrail(lines, linenum, pos, trail)
  {
    AcceptedIffTrail(lines, linenum, pos);
    var l: nat, p: nat := linenum, pos;
    while l < |lines|
      invariant InArguments(lines, linenum, pos) == InArguments(lines, l, p)
      decreases |lines| - l, CharactersLeft(lines, l, p)
    {
      var line := lines[l];
      if p >= |line| {
        l, p := l + 1, 0;
        continue;
      }
      var s := NextStop(line, p);
      if s >= |line| {
        l, p := l + 1, 0;
        continue;
      }
      var token := line[s];
      if token in "{};" {
        return false;
      }
      if token in ">=[]." {
        return true;
      }
      var _, endLine, endPos := CloseExpression(lines, l, s);
      if endPos < 0 {
        return false;
      }
      CloseAdvances(lines, l, s);
      l, p := endLine, endPos;
    }
    return false;
  }
}
