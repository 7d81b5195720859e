/** How the nesting stack is saved and restored around `#if`, `#else`, `#elif`
    and `#endif` (conditional inclusion, section 16.1 of ISO C++11).  What a line
    does to the stack otherwise is left completely open. */
module Preprocessor {
  import opened Text

  datatype Directive = If | Else | Endif | Other

  /** A line together with its number, so that a line keeps its identity when
      other lines are deleted, and the directive it is. */
  datatype Line = Line(num: nat, directive: Directive, text: string)

  /** What is remembered for an open `#if`. */
  datatype Checkpoint<B> = Checkpoint(beforeIf: seq<B>, beforeElse: seq<B>, seenElse: bool)

  datatype State<B> = State(stack: seq<B>, checkpoints: seq<Checkpoint<B>>)

  function LeadingWord(s: string): string {
    if s != "" && IsWord(s[0]) then [s[0]] + LeadingWord(s[1..]) else ""
  }

  function DirectiveOf(word: string): Directive {
    if word == "if" || word == "ifdef" || word == "ifndef" then If
    else if word == "else" || word == "elif" then Else
    else if word == "endif" then Endif
    else Other
  }

  function Classify(text: string): Directive {
    var s := LStrip(text);
    if s == "" || s[0] != '#' then Other else DirectiveOf(LeadingWord(LStrip(s[1..])))
  }

  function Read(num: nat, text: string): Line {
    Line(num, Classify(text), text)
  }

  function ReadFile(texts: seq<string>): seq<Line> {
    seq(|texts|, i requires 0 <= i < |texts| => Read(i, texts[i]))
  }

  function Preprocess<B>(d: Directive, s: State<B>): State<B> {
    var n := |s.checkpoints|;
    match d
    case If => s.(checkpoints := s.checkpoints + [Checkpoint(s.stack, [], false)])
    case Else =>
      if n == 0 then s
      else
        var top := s.checkpoints[n - 1];
        var marked := if top.seenElse then top else top.(seenElse := true, beforeElse := s.stack);
        State(top.beforeIf, s.checkpoints[n - 1 := marked])
    case Endif =>
      if n == 0 then s
      else
        var top := s.checkpoints[n - 1];
        State(if top.seenElse then top.beforeElse else s.stack, s.checkpoints[..n - 1])
    case Other => s
  }

  /** What the rest of a line does to the stack. */
  type Effect<!B> = (Line, seq<B>) -> seq<B>

  function Step<B>(effect: Effect<B>, s: State<B>, line: Line): State<B> {
    var t := Preprocess(line.directive, s);
    t.(stack := effect(line, t.stack))
  }

  function Run<B>(effect: Effect<B>, s: State<B>, lines: seq<Line>): State<B> {
    if lines == [] then s
    else Step(effect, Run(effect, s, lines[..|lines| - 1]), lines[|lines| - 1])
  }

  // ---------- which lines count ----------

  /** One flag for each open `#if`: its `#else` or `#elif` has been seen. */
  function Flag(d: Directive, flags: seq<bool>): seq<bool> {
    match d
    case If => flags + [false]
    case Else => if flags == [] then [] else flags[|flags| - 1 := true]
    case Endif => if flags == [] then [] else flags[..|flags| - 1]
    case Other => flags
  }

  function Flags(lines: seq<Line>, flags: seq<bool>): seq<bool> {
    if lines == [] then flags
    else Flag(lines[|lines| - 1].directive, Flags(lines[..|lines| - 1], flags))
  }

  predicate Live(flags: seq<bool>) {
    forall i :: 0 <= i < |flags| ==> !flags[i]
  }

  /** The lines with every `#else` and `#elif` branch deleted, at every depth. */
  function FirstBranches(lines: seq<Line>, flags: seq<bool>): seq<Line> {
    if lines == [] then []
    else
      var kept := FirstBranches(lines[..|lines| - 1], flags);
      if Live(Flags(lines, flags)) then kept + [lines[|lines| - 1]] else kept
  }

  // ---------- the theorem ----------

  function FlagsOf<B>(checkpoints: seq<Checkpoint<B>>): seq<bool> {
    seq(|checkpoints|, i requires 0 <= i < |checkpoints| => checkpoints[i].seenElse)
  }

  ghost predicate LiveState<B>(s: State<B>) {
    forall i :: 0 <= i < |s.checkpoints| ==> !s.checkpoints[i].seenElse
  }

  /** `d` is the outermost open conditional that is past its first branch. */
  ghost predicate DeadFrom<B>(s: State<B>, d: nat) {
    d < |s.checkpoints| && s.checkpoints[d].seenElse
    && forall i :: 0 <= i < d ==> !s.checkpoints[i].seenElse
  }

  /** The run of the first branches waits at the outermost `#else`. */
  ghost predicate Waiting<B>(full: State<B>, pruned: State<B>, d: nat) {
    && DeadFrom(full, d)
    && pruned.stack == full.checkpoints[d].beforeElse
    && |pruned.checkpoints| == d + 1
    && pruned.checkpoints[..d] == full.checkpoints[..d]
    && !pruned.checkpoints[d].seenElse
  }

  /** How the run of the whole file and the run of its first branches relate. */
  ghost predicate Related<B>(full: State<B>, pruned: State<B>) {
    if LiveState(full) then full == pruned else exists d: nat :: Waiting(full, pruned, d)
  }

  lemma LiveStep<B>(dir: Directive, s: State<B>)
    requires LiveState(s)
    ensures if dir == Else && s.checkpoints != [] then Waiting(Preprocess(dir, s), s, |s.checkpoints| - 1)
            else LiveState(Preprocess(dir, s))
  {
  }

  lemma RelatedFromLive<B>(effect: Effect<B>, s: State<B>, line: Line)
    requires LiveState(s)
    ensures var full := Step(effect, s, line); Related(full, if LiveState(full) then full else s)
  {
    var full, dir := Step(effect, s, line), line.directive;
    LiveStep(dir, s);
    if dir == Else && s.checkpoints != [] {
      assert Waiting(full, s, |s.checkpoints| - 1);
    }
  }

  lemma WaitingPersists<B>(dir: Directive, full: State<B>, pruned: State<B>, d: nat)
    requires Waiting(full, pruned, d) && !(dir == Endif && |full.checkpoints| == d + 1)
    ensures Waiting(Preprocess(dir, full), pruned, d)
  {
    var after := Preprocess(dir, full);
    assert after.checkpoints[d] == full.checkpoints[d];
    assert after.checkpoints[..d] == full.checkpoints[..d];
    assert forall i :: 0 <= i < d ==> after.checkpoints[i] == full.checkpoints[i];
  }

  lemma WaitingEnds<B>(full: State<B>, pruned: State<B>, d: nat)
    requires Waiting(full, pruned, d) && |full.checkpoints| == d + 1
    ensures Preprocess(Endif, full) == Preprocess(Endif, pruned)
    ensures LiveState(Preprocess(Endif, full))
  {
  }

  lemma RelatedFromWaiting<B>(effect: Effect<B>, full: State<B>, pruned: State<B>, d: nat, line: Line)
    requires Waiting(full, pruned, d)
    ensures var after := Step(effect, full, line);
            Related(after, if LiveState(after) then Step(effect, pruned, line) else pruned)
  {
    var after := Step(effect, full, line);
    var dir := line.directive;
    if dir == Endif && |full.checkpoints| == d + 1 {
      WaitingEnds(full, pruned, d);
    } else {
      WaitingPersists(dir, full, pruned, d);
      assert Waiting(after, pruned, d);
    }
  }

  lemma FlagsStep<B>(dir: Directive, s: State<B>)
    ensures FlagsOf(Preprocess(dir, s).checkpoints) == Flag(dir, FlagsOf(s.checkpoints))
  {
  }

  lemma {:induction false} FlagsFollow<B>(effect: Effect<B>, s: State<B>, lines: seq<Line>)
    ensures FlagsOf(Run(effect, s, lines).checkpoints) == Flags(lines, FlagsOf(s.checkpoints))
  {
    if lines != [] {
      var init := lines[..|lines| - 1];
      FlagsFollow(effect, s, init);
      FlagsStep(lines[|lines| - 1].directive, Run(effect, s, init));
    }
  }

  lemma {:induction false} RunsRelated<B>(effect: Effect<B>, s: State<B>, lines: seq<Line>)
    requires LiveState(s)
    ensures Related(Run(effect, s, lines), Run(effect, s, FirstBranches(lines, FlagsOf(s.checkpoints))))
  {
    if lines != [] {
      var init, line, flags := lines[..|lines| - 1], lines[|lines| - 1], FlagsOf(s.checkpoints);
      RunsRelated(effect, s, init);
      FlagsFollow(effect, s, lines);
      var full, pruned := Run(effect, s, init), Run(effect, s, FirstBranches(init, flags));
      var after := Step(effect, full, line);
      if LiveState(full) {
        RelatedFromLive(effect, full, line);
      } else {
        var d: nat :| Waiting(full, pruned, d);
        RelatedFromWaiting(effect, full, pruned, d, line);
      }
      assert Live(Flags(lines, flags)) <==> LiveState(after) by {
        assert forall i :: 0 <= i < |after.checkpoints| ==>
            FlagsOf(after.checkpoints)[i] == after.checkpoints[i].seenElse;
      }
      var kept := FirstBranches(init, flags);
      assert (kept + [line])[..|kept + [line]| - 1] == kept;
    }
  }

  /** For every file and every effect of its lines: wherever no open conditional
      is past its first branch, the nesting stack and the checkpoints are those
      of the file with all `#else` and `#elif` branches deleted. */
  lemma ElseBranchesIrrelevant<B>(effect: Effect<B>, s: State<B>, lines: seq<Line>)
    requires LiveState(s)
    requires Live(Flags(lines, FlagsOf(s.checkpoints)))
    ensures Run(effect, s, lines) == Run(effect, s, FirstBranches(lines, FlagsOf(s.checkpoints)))
  {
    RunsRelated(effect, s, lines);
    FlagsFollow(effect, s, lines);
    var full := Run(effect, s, lines);
    assert forall i :: 0 <= i < |full.checkpoints| ==>
        FlagsOf(full.checkpoints)[i] == full.checkpoints[i].seenElse;
  }

  /** Every `#else`, `#elif` and `#endif` has its `#if` among the lines. */
  ghost predicate NoStray(lines: seq<Line>) {
    forall n :: 0 <= n < |lines| && lines[n].directive in {Else, Endif} ==> Flags(lines[..n], []) != []
  }

  ghost predicate WellNested(lines: seq<Line>) {
    NoStray(lines) && Flags(lines, []) == []
  }

  /** Lines without stray directives only add to the checkpoints. */
  lemma {:induction false} CheckpointsBelowKept<B>(effect: Effect<B>, s: State<B>, lines: seq<Line>)
    requires NoStray(lines)
    ensures s.checkpoints <= Run(effect, s, lines).checkpoints
    ensures |Run(effect, s, lines).checkpoints| == |s.checkpoints| + |Flags(lines, [])|
  {
    if lines != [] {
      var init := lines[..|lines| - 1];
      forall n | 0 <= n < |init|
        ensures init[n] == lines[n] && init[..n] == lines[..n]
      {
      }
      CheckpointsBelowKept(effect, s, init);
    }
  }

  /** A well-nested stretch of lines leaves the checkpoints as it found them and
      the stack as its first branches alone would. */
  lemma WellNestedRestores<B>(effect: Effect<B>, s: State<B>, lines: seq<Line>)
    requires WellNested(lines)
    ensures Run(effect, s, lines).checkpoints == s.checkpoints
    ensures LiveState(s) ==>
              Run(effect, s, lines).stack == Run(effect, s, FirstBranches(lines, FlagsOf(s.checkpoints))).stack
  {
    CheckpointsBelowKept(effect, s, lines);
    if LiveState(s) {
      RunsRelated(effect, s, lines);
    }
  }

  // ---------- each branch ----------

  /** The `#if` before these lines stays open throughout. */
  ghost predicate StaysOpen(lines: seq<Line>) {
    forall n :: 0 <= n < |lines| && lines[n].directive == Endif ==> |Flags(lines[..n], [false])| > 1
  }

  /** It stays open and is the innermost open one at their end. */
  ghost predicate InnermostAfter(lines: seq<Line>) {
    StaysOpen(lines) && |Flags(lines, [false])| == 1
  }

  /** The same, and these lines are its first branch. */
  ghost predicate FirstBranch(lines: seq<Line>) {
    StaysOpen(lines) && Flags(lines, [false]) == [false]
  }

  lemma StaysOpenInit(lines: seq<Line>)
    requires lines != [] && StaysOpen(lines)
    ensures StaysOpen(lines[..|lines| - 1])
  {
    var init := lines[..|lines| - 1];
    forall n | 0 <= n < |init|
      ensures init[n] == lines[n] && init[..n] == lines[..n]
    {
    }
  }

  lemma CheckpointStep<B>(d: Directive, s: State<B>, n: nat)
    requires n < |s.checkpoints| && (d == Endif ==> n + 1 < |s.checkpoints|)
    ensures var r := Preprocess(d, s);
            && n < |r.checkpoints| && r.checkpoints[..n] == s.checkpoints[..n]
            && r.checkpoints[n].beforeIf == s.checkpoints[n].beforeIf
            && (s.checkpoints[n].seenElse || d != Else || n + 1 < |s.checkpoints| ==>
                  r.checkpoints[n] == s.checkpoints[n])
  {
  }

  /** What is remembered for an open `#if` stays remembered while it is open; once an
      `#else` has been seen, and before one is seen, it stays exactly the same. */
  lemma {:induction false} CheckpointKept<B>(effect: Effect<B>, s: State<B>, lines: seq<Line>)
    requires StaysOpen(lines) && s.checkpoints != []
    ensures var n, r, flags := |s.checkpoints| - 1, Run(effect, s, lines), Flags(lines, [false]);
            && |flags| > 0 && |r.checkpoints| == n + |flags|
            && r.checkpoints[..n] == s.checkpoints[..n]
            && r.checkpoints[n].beforeIf == s.checkpoints[n].beforeIf
            && (s.checkpoints[n].seenElse || !flags[0] ==> r.checkpoints[n] == s.checkpoints[n])
  {
    if lines != [] {
      var init := lines[..|lines| - 1];
      StaysOpenInit(lines);
      CheckpointKept(effect, s, init);
      CheckpointStep(lines[|lines| - 1].directive, Run(effect, s, init), |s.checkpoints| - 1);
    }
  }

  lemma {:induction false} RunConcat<B>(effect: Effect<B>, s: State<B>, a: seq<Line>, b: seq<Line>)
    ensures Run(effect, s, a + b) == Run(effect, Run(effect, s, a), b)
  {
    if b == [] {
      assert a + b == a;
    } else {
      assert (a + b)[..|a + b| - 1] == a + b[..|b| - 1];
      RunConcat(effect, s, a, b[..|b| - 1]);
    }
  }

  lemma RunOne<B>(effect: Effect<B>, s: State<B>, line: Line)
    ensures Run(effect, s, [line]) == Step(effect, s, line)
  {
    assert [line][..0] == [];
  }

  /** The state after lines `a`, an `#if` and lines `b` that leave it open. */
  lemma AfterIf<B>(effect: Effect<B>, s: State<B>, a: seq<Line>, hash: Line, b: seq<Line>)
    requires hash.directive == If && StaysOpen(b)
    ensures var before, r, flags := Run(effect, s, a), Run(effect, s, a + [hash] + b), Flags(b, [false]);
            var n := |before.checkpoints|;
            && |flags| > 0 && |r.checkpoints| == n + |flags| && r.checkpoints[..n] == before.checkpoints
            && r.checkpoints[n].beforeIf == before.stack
            && (!flags[0] ==> !r.checkpoints[n].seenElse)
  {
    var before := Run(effect, s, a);
    RunConcat(effect, s, a, [hash]);
    RunOne(effect, before, hash);
    RunConcat(effect, s, a + [hash], b);
    CheckpointKept(effect, Step(effect, before, hash), b);
  }

  /** At every `#else` and `#elif`, the first and any later one, the stack is again what
      it was before the `#if`, whatever the branch before did to it. */
  lemma ElseRestores<B>(effect: Effect<B>, s: State<B>, a: seq<Line>, hash: Line, b: seq<Line>)
    requires hash.directive == If && InnermostAfter(b)
    ensures Preprocess(Else, Run(effect, s, a + [hash] + b)).stack == Run(effect, s, a).stack
  {
    AfterIf(effect, s, a, hash, b);
  }

  /** At the `#endif` of a conditional without `#else` the stack goes on as it is, and
      the checkpoints are those from before the `#if`. */
  lemma EndifKeeps<B>(effect: Effect<B>, s: State<B>, a: seq<Line>, hash: Line, b: seq<Line>)
    requires hash.directive == If && FirstBranch(b)
    ensures var first := Run(effect, s, a + [hash] + b);
            Preprocess(Endif, first) == State(first.stack, Run(effect, s, a).checkpoints)
  {
    AfterIf(effect, s, a, hash, b);
  }

  lemma EndifAfterElse<B>(effect: Effect<B>, first: State<B>, other: Line, c: seq<Line>)
    requires first.checkpoints != [] && !first.checkpoints[|first.checkpoints| - 1].seenElse
    requires other.directive == Else && InnermostAfter(c)
    ensures Preprocess(Endif, Run(effect, first, [other] + c))
         == State(first.stack, first.checkpoints[..|first.checkpoints| - 1])
  {
    RunConcat(effect, first, [other], c);
    RunOne(effect, first, other);
    CheckpointKept(effect, Step(effect, first, other), c);
  }

  /** At the `#endif` of a conditional with `#else` or `#elif` branches the stack is
      again what it was at the end of the first branch, whatever the others did to it. */
  lemma EndifRestores<B>(effect: Effect<B>, s: State<B>, a: seq<Line>, hash: Line, b: seq<Line>, other: Line,
                         c: seq<Line>)
    requires hash.directive == If && FirstBranch(b) && other.directive == Else && InnermostAfter(c)
    ensures var first := Run(effect, s, a + [hash] + b);
            Preprocess(Endif, Run(effect, first, [other] + c)) == State(first.stack, Run(effect, s, a).checkpoints)
  {
    AfterIf(effect, s, a, hash, b);
    EndifAfterElse(effect, Run(effect, s, a + [hash] + b), other, c);
  }

  // ---------- directives ----------

  predicate AllWord(s: string) {
    forall i :: 0 <= i < |s| ==> IsWord(s[i])
  }

  lemma {:induction false} LeadingWordRead(word: string, rest: string)
    requires AllWord(word) && (rest == "" || !IsWord(rest[0]))
    ensures LeadingWord(word + rest) == word
  {
    if word == "" {
      assert word + rest == rest;
    } else {
      assert (word + rest)[1..] == word[1..] + rest;
      LeadingWordRead(word[1..], rest);
    }
  }

  /** A line is a directive by the word after its `#`, with any white space around the
      `#`; a longer word is another one. */
  lemma DirectiveRead(space: string, gap: string, word: string, rest: string, text: string)
    requires AllSpace(space) && AllSpace(gap) && AllWord(word) && (rest == "" || !IsWord(rest[0]))
    requires (rest != "" && word == "" ==> !IsSpace(rest[0])) && text == space + "#" + gap + word + rest
    ensures Classify(text) == DirectiveOf(word)
  {
    var s := "#" + (gap + (word + rest));
    assert text == space + s;
    LStripSpace(space, s);
    assert s[1..] == gap + (word + rest);
    LStripSpace(gap, word + rest);
    LeadingWordRead(word, rest);
  }

  /** These six words are directives, and no others. */
  lemma DirectiveWords(word: string)
    ensures DirectiveOf("if") == DirectiveOf("ifdef") == DirectiveOf("ifndef") == If
    ensures DirectiveOf("else") == DirectiveOf("elif") == Else && DirectiveOf("endif") == Endif
    ensures word !in ["if", "ifdef", "ifndef", "else", "elif", "endif"] ==> DirectiveOf(word) == Other
  {
  }

  /** A line that starts with anything but `#` is none. */
  lemma NoHashNoDirective(space: string, text: string)
    requires AllSpace(space) && (text == "" || (!IsSpace(text[0]) && text[0] != '#'))
    ensures Classify(space + text) == Other
  {
    LStripSpace(space, text);
  }
}
