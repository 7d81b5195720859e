/** The nesting state as cpplint keeps it, updated line by line, and what it
    reports at the end of a file. */
module NestingStates {
  import opened Text
  import opened Preprocessor
  import opened Nesting

  /** What a line does to the stack after its directive has been handled. */
  function LineEffect(eventsOf: LineReader): Effect<Block> {
    (line: Line, stack: seq<Block>) => ApplyAll(stack, eventsOf(line))
  }

  predicate HonestHead(s: string, rest: string) {
    |rest| <= |s| && s[|s| - |rest|..] == rest && forall i :: 0 <= i < |s| - |rest| ==> !IsToken(s[i])
  }

  /** A class declaration is matched at the start of the text, and the matched
      part holds no brace, semicolon or closing parenthesis. */
  ghost predicate Honest(classOf: ClassMatcher) {
    forall num: nat, s: string :: classOf(num, s).Some? ==> HonestHead(s, classOf(num, s).value.rest)
  }

  lemma {:induction false} TokensAfter(num: nat, s: string, k: nat)
    requires k <= |s| && forall i :: 0 <= i < k ==> !IsToken(s[i])
    ensures Tokens(num, s) == Tokens(num, s[k..])
  {
    if k > 0 {
      TokensAfter(num, s[1..], k - 1);
      assert s[1..][k - 1..] == s[k..];
    } else {
      assert s[0..] == s;
    }
  }

  /** The first brace, semicolon or closing parenthesis. */
  function FirstToken(s: string): (r: Option<nat>)
    ensures r.Some? ==> r.value < |s| && IsToken(s[r.value]) && forall i :: 0 <= i < r.value ==> !IsToken(s[i])
    ensures r.None? ==> forall i :: 0 <= i < |s| ==> !IsToken(s[i])
  {
    if s == "" then None
    else if IsToken(s[0]) then Some(0)
    else match FirstToken(s[1..]) case None => None case Some(i) => Some(i + 1)
  }

  datatype Report = Report(line: nat, kind: Kind, name: string)

  /** The classes and namespaces among some open blocks. */
  function Reported(open: seq<Shape>): seq<Report> {
    if open == [] then []
    else
      var init, last := Reported(open[..|open| - 1]), open[|open| - 1];
      if last.kind == Plain then init else init + [Report(last.line, last.kind, last.name)]
  }

  /** Each class and namespace is reported, in the order of the blocks, and nothing else. */
  lemma {:induction false} ReportedConcat(a: seq<Shape>, b: seq<Shape>)
    ensures Reported(a + b) == Reported(a) + Reported(b)
  {
    if b == [] {
      assert a + b == a;
    } else {
      assert (a + b)[..|a + b| - 1] == a + b[..|b| - 1];
      ReportedConcat(a, b[..|b| - 1]);
    }
  }

  lemma ReportedOne(s: Shape)
    ensures Reported([s]) == if s.kind == Class || s.kind == Namespace then [Report(s.line, s.kind, s.name)] else []
  {
    assert [s][..0] == [] && Reported([]) == [];
  }

  lemma ApplyCons(stack: seq<Block>, e: Event, more: seq<Event>)
    ensures ApplyAll(stack, [e] + more) == ApplyAll(Apply(e, stack), more)
  {
    assert ([e] + more)[1..] == more;
  }

  lemma NamespacesStep(num: nat, s: string, name: string, rest: string)
    requires MatchNamespace(s) == Some((name, rest))
    ensures var more := Namespaces(num, AfterBrace(rest));
            Namespaces(num, s) == ([NamespaceDecl(name, num, Find(rest, '{').Some?)] + more.0, more.1)
  {
  }

  method ConsumeNamespaces(num: nat, text: string, stack0: seq<Block>) returns (stack: seq<Block>, rest: string)
    ensures stack == ApplyAll(stack0, Namespaces(num, text).0) && rest == Namespaces(num, text).1
  {
    stack, rest := stack0, text;
    ghost var left := Namespaces(num, text);
    while true
      invariant left == Namespaces(num, rest)
      invariant ApplyAll(stack0, Namespaces(num, text).0) == ApplyAll(stack, left.0)
      invariant Namespaces(num, text).1 == left.1
      decreases |rest|
    {
      var m := MatchNamespace(rest);
      if m.None? {
        return;
      }
      var (name, after) := m.value;
      NamespacesStep(num, rest, name, after);
      left := Namespaces(num, AfterBrace(after));
      ApplyCons(stack, NamespaceDecl(name, num, Find(after, '{').Some?), left.0);
      var brace := Find(after, '{');
      stack := stack + [Block(Namespace, name, num, brace.Some?, 0)];
      rest := if brace.Some? then after[brace.value + 1..] else after;
    }
  }

  method ConsumeTokens(num: nat, text: string, stack0: seq<Block>) returns (stack: seq<Block>)
    ensures stack == ApplyAll(stack0, Tokens(num, text))
  {
    stack := stack0;
    var line := text;
    while true
      invariant ApplyAll(stack0, Tokens(num, text)) == ApplyAll(stack, Tokens(num, line))
      decreases |line|
    {
      var at := FirstToken(line);
      if at.None? {
        TokensAfter(num, line, |line|);
        return;
      }
      var token := line[at.value];
      TokensAfter(num, line, at.value);
      assert line[at.value..][1..] == line[at.value + 1..];
      ghost var event := TokenEvent(token, num);
      ghost var more := Tokens(num, line[at.value + 1..]);
      assert ([event] + more)[1..] == more;
      ghost var before := stack;
      if token == '{' {
        if !SeenOpenBrace(stack) {
          stack := SetTop(stack, Top(stack).(seenOpenBrace := true));
        } else {
          stack := stack + [Block(Plain, "", num, true, 0)];
        }
      } else if token == ';' || token == ')' {
        if !SeenOpenBrace(stack) {
          stack := stack[..|stack| - 1];
        }
      } else if stack != [] {
        stack := stack[..|stack| - 1];
      }
      assert stack == Apply(event, before);
      line := line[at.value + 1..];
    }
  }

  lemma ParenthesesRun(stack: seq<Block>, delta: int)
    ensures ApplyAll(stack, ParenEvents(delta))
         == if stack == [] then [] else SetTop(stack, Top(stack).(openParentheses := Top(stack).openParentheses + delta))
  {
    if delta != 0 {
      assert ApplyAll(stack, [Parentheses(delta)]) == Apply(Parentheses(delta), stack);
    }
  }

  /** Whether the class is taken or passed over, the same tokens remain. */
  lemma ClassRun(num: nat, rest: string, head: Option<ClassHead>, stack: seq<Block>)
    requires head.Some? ==> HonestHead(rest, head.value.rest)
    ensures Tokens(num, rest) == ClassTokens(num, rest, head)
    ensures ApplyAll(stack, ClassEvents(num, head))
         == if head.Some? && (stack == [] || Top(stack).openParentheses == 0)
            then stack + [Block(Class, head.value.name, num, false, 0)] else stack
  {
    if head.Some? {
      TokensAfter(num, rest, |rest| - |head.value.rest|);
      var e := ClassDecl(head.value.name, num);
      assert ApplyAll(stack, [e]) == Apply(e, stack);
    }
  }

  lemma EventsInParts(stack: seq<Block>, a: seq<Event>, b: seq<Event>, c: seq<Event>, d: seq<Event>)
    ensures ApplyAll(stack, a + b + c + d) == ApplyAll(ApplyAll(ApplyAll(ApplyAll(stack, a), b), c), d)
  {
    ApplyConcat(stack, a, b);
    ApplyConcat(stack, a + b, c);
    ApplyConcat(stack, a + b + c, d);
  }

  method CountParentheses(text: string, stack0: seq<Block>) returns (stack: seq<Block>)
    ensures stack == ApplyAll(stack0, ParenEvents(ParenDelta(text)))
  {
    var delta := Count(text, '(') - Count(text, ')');
    ParenthesesRun(stack0, delta);
    stack := stack0;
    if stack != [] {
      stack := SetTop(stack, Top(stack).(openParentheses := Top(stack).openParentheses + delta));
    }
  }

  method ConsumeClass(num: nat, text: string, classOf: ClassMatcher, stack0: seq<Block>)
    returns (stack: seq<Block>, rest: string)
    requires Honest(classOf)
    ensures stack == ApplyAll(stack0, ClassEvents(num, classOf(num, text)))
    ensures Tokens(num, rest) == ClassTokens(num, text, classOf(num, text))
  {
    var head := classOf(num, text);
    assert head.Some? ==> HonestHead(text, head.value.rest);
    ClassRun(num, text, head, stack0);
    stack, rest := stack0, text;
    if head.Some? && (stack == [] || Top(stack).openParentheses == 0) {
      stack := stack + [Block(Class, head.value.name, num, false, 0)];
      rest := head.value.rest;
    }
  }

  /** The part of Update after the directive: parentheses, namespaces, a class,
      and the remaining braces and semicolons. */
  method UpdateBlocks(line: Line, classOf: ClassMatcher, stack0: seq<Block>) returns (stack: seq<Block>)
    requires Honest(classOf)
    ensures stack == ApplyAll(stack0, LineEvents(line, classOf))
  {
    var rest;
    stack := CountParentheses(line.text, stack0);
    stack, rest := ConsumeNamespaces(line.num, line.text, stack);
    ghost var split, head := Namespaces(line.num, line.text), classOf(line.num, rest);
    stack, rest := ConsumeClass(line.num, rest, classOf, stack);
    stack := ConsumeTokens(line.num, rest, stack);
    EventsInParts(stack0, ParenEvents(ParenDelta(line.text)), split.0, ClassEvents(line.num, head),
                  ClassTokens(line.num, split.1, head));
  }

  class NestingState {
    var stack: seq<Block>
    var checkpoints: seq<Checkpoint<Block>>

    constructor ()
      ensures Value() == State([], [])
    {
      stack, checkpoints := [], [];
    }

    function Value(): State<Block>
      reads this
    {
      State(stack, checkpoints)
    }

    method HandleDirective(d: Directive)
      modifies this
      ensures Value() == Preprocess(d, old(Value()))
    {
      var n := |checkpoints|;
      if d == If {
        checkpoints := checkpoints + [Checkpoint(stack, [], false)];
      } else if d == Else {
        if n > 0 {
          if !checkpoints[n - 1].seenElse {
            checkpoints := checkpoints[n - 1 := checkpoints[n - 1].(seenElse := true, beforeElse := stack)];
          }
          stack := checkpoints[n - 1].beforeIf;
        }
      } else if d == Endif {
        if n > 0 {
          if checkpoints[n - 1].seenElse {
            stack := checkpoints[n - 1].beforeElse;
          }
          checkpoints := checkpoints[..n - 1];
        }
      }
    }

    method UpdatePreprocessor(text: string)
      modifies this
      ensures Value() == Preprocess(Classify(text), old(Value()))
    {
      HandleDirective(Classify(text));
    }

    method Update(num: nat, text: string, classOf: ClassMatcher)
      requires Honest(classOf)
      modifies this
      ensures Value() == Step(LineEffect(ReaderOf(classOf)), old(Value()), Read(num, text))
    {
      UpdatePreprocessor(text);
      stack := UpdateBlocks(Read(num, text), classOf, stack);
    }

    /** One report for each class and namespace still open, outermost first. */
    method CheckCompletedBlocks() returns (reports: seq<Report>)
      ensures reports == Reported(Shapes(stack))
    {
      reports := [];
      ghost var shapes := Shapes(stack);
      for i := 0 to |stack|
        invariant reports == Reported(shapes[..i])
      {
        assert shapes[..i + 1][..i] == shapes[..i];
        if stack[i].kind == Class || stack[i].kind == Namespace {
          reports := reports + [Report(stack[i].line, stack[i].kind, stack[i].name)];
        }
      }
      assert shapes[..|stack|] == shapes;
    }
  }

  lemma RunMore<B>(effect: Effect<B>, s: State<B>, lines: seq<Line>, i: nat)
    requires i < |lines|
    ensures Run(effect, s, lines[..i + 1]) == Step(effect, Run(effect, s, lines[..i]), lines[i])
  {
    assert lines[..i + 1][..i] == lines[..i];
  }

  /** Processes a whole file and reports the blocks it leaves open. */
  method ProcessLines(texts: seq<string>, classOf: ClassMatcher) returns (reports: seq<Report>)
    requires Honest(classOf)
    ensures reports == Reported(Shapes(Run(LineEffect(ReaderOf(classOf)), State([], []), ReadFile(texts)).stack))
  {
    var state := new NestingState();
    ghost var lines, effect, start := ReadFile(texts), LineEffect(ReaderOf(classOf)), State([], []);
    for i := 0 to |texts|
      invariant state.Value() == Run(effect, start, lines[..i])
    {
      RunMore(effect, start, lines, i);
      state.Update(i, texts[i], classOf);
    }
    assert lines[..|texts|] == lines;
    reports := state.CheckCompletedBlocks();
  }

  // ---------- whole files ----------

  function AllEvents(lines: seq<Line>, eventsOf: LineReader): seq<Event> {
    if lines == [] then []
    else AllEvents(lines[..|lines| - 1], eventsOf) + eventsOf(lines[|lines| - 1])
  }

  lemma LiveKeepsStack<B>(dir: Directive, s: State<B>)
    requires LiveState(s) && LiveState(Preprocess(dir, s))
    ensures Preprocess(dir, s).stack == s.stack
  {
    if dir == Else && s.checkpoints != [] {
      LiveStep(dir, s);
    }
  }

  lemma RelatedIsLive<B>(full: State<B>, pruned: State<B>)
    requires Related(full, pruned)
    ensures LiveState(pruned)
  {
    if !LiveState(full) {
      var d: nat :| Waiting(full, pruned, d);
      forall i | 0 <= i < d
        ensures !pruned.checkpoints[i].seenElse
      {
        assert pruned.checkpoints[i] == pruned.checkpoints[..d][i] == full.checkpoints[i];
      }
    }
  }

  /** The run of the first branches is the run of their events alone. */
  lemma {:induction false} FirstBranchesRun(eventsOf: LineReader, lines: seq<Line>)
    ensures var kept := FirstBranches(lines, []);
            var s := Run(LineEffect(eventsOf), State([], []), kept);
            LiveState(s) && s.stack == ApplyAll([], AllEvents(kept, eventsOf))
  {
    var effect, start := LineEffect(eventsOf), State([], []);
    assert FlagsOf(start.checkpoints) == [];
    RunsRelated(effect, start, lines);
    RelatedIsLive(Run(effect, start, lines), Run(effect, start, FirstBranches(lines, [])));
    if lines != [] {
      var init, line := lines[..|lines| - 1], lines[|lines| - 1];
      FirstBranchesRun(eventsOf, init);
      var before := FirstBranches(init, []);
      if Live(Flags(lines, [])) {
        var kept := before + [line];
        assert kept[..|kept| - 1] == before;
        var s := Run(effect, start, before);
        LiveKeepsStack(line.directive, s);
        ApplyConcat([], AllEvents(before, eventsOf), eventsOf(line));
      }
    }
  }

  /** A file whose first branches spell a nest, or the first `k` events of one, is
      reported for exactly the classes and namespaces that are open there, outermost
      first, whatever its `#else` branches hold and whatever its parentheses do. */
  lemma FileReportsOpenBlocks(eventsOf: LineReader, lines: seq<Line>, n: Nest, k: nat)
    requires WellFormed(n, false, 0) && k <= |Events(n)|
    requires Live(Flags(lines, []))
    requires AllEvents(FirstBranches(lines, []), eventsOf) == Events(n)[..k]
    ensures var stack := Run(LineEffect(eventsOf), State([], []), lines).stack;
            && Shapes(stack) == OpenAfter(n, false, 0, k)
            && Reported(Shapes(stack)) == Reported(OpenAfter(n, false, 0, k))
            && (k == |Events(n)| ==> stack == [] && Reported(Shapes(stack)) == [])
  {
    var start: State<Block> := State([], []);
    assert FlagsOf(start.checkpoints) == [];
    ElseBranchesIrrelevant(LineEffect(eventsOf), start, lines);
    FirstBranchesRun(eventsOf, lines);
    NestCut([], n, 0, k);
    var none: seq<Block> := [];
    assert Shapes(none) + OpenAfter(n, false, 0, k) == OpenAfter(n, false, 0, k);
    if k == |Events(n)| {
      NestReturns([], n, 0);
      assert Events(n)[..k] == Events(n);
    }
  }

  // ---------- a file whose parentheses go wrong ----------

  /** A line that declares no namespace and no class. */
  lemma PlainLine(line: Line, classOf: ClassMatcher)
    requires line.text != "" && !IsSpace(line.text[0]) && line.text[0] != 'n'
    requires classOf(line.num, line.text).None?
    ensures LineEvents(line, classOf)
         == ParenEvents(ParenDelta(line.text)) + Tokens(line.num, line.text)
  {
    assert SkipSpaces(line.text, 0) == 0;
    assert Namespaces(line.num, line.text) == ([], line.text);
  }

  lemma FunctionLine(classOf: ClassMatcher)
    requires classOf(0, "f() {").None?
    ensures LineEvents(Line(0, Other, "f() {"), classOf) == [Tail, OpenBrace(0)]
  {
    PlainLine(Line(0, Other, "f() {"), classOf);
    assert Tokens(0, "f() {") == [Tail, OpenBrace(0)];
  }

  lemma CallLine(classOf: ClassMatcher)
    requires classOf(1, "g({").None?
    ensures LineEvents(Line(1, Other, "g({"), classOf) == [Parentheses(1), OpenBrace(1)]
  {
    PlainLine(Line(1, Other, "g({"), classOf);
    assert Tokens(1, "g({") == [OpenBrace(1)];
  }

  lemma CallEndLine(classOf: ClassMatcher)
    requires classOf(2, "});").None?
    ensures LineEvents(Line(2, Other, "});"), classOf) == [Parentheses(-1), CloseBrace, Tail, Tail]
  {
    PlainLine(Line(2, Other, "});"), classOf);
    assert Tokens(2, "});") == [CloseBrace, Tail, Tail];
  }

  lemma NoDirective(text: string)
    requires text != "" && !IsSpace(text[0]) && text[0] != '#'
    ensures Classify(text) == Other
  {
  }

  lemma ApplyTwo(stack: seq<Block>, a: Event, b: Event)
    ensures ApplyAll(stack, [a, b]) == Apply(b, Apply(a, stack))
  {
    assert [a, b][1..] == [b];
    ApplyOne(Apply(a, stack), b);
  }

  lemma CallEvents()
    ensures var f, g := Block(Plain, "", 0, true, 1), Block(Plain, "", 1, true, 0);
            && ApplyAll([], [Tail, OpenBrace(0)]) == [f.(openParentheses := 0)]
            && ApplyAll([f.(openParentheses := 0)], [Parentheses(1), OpenBrace(1)]) == [f, g]
            && ApplyAll([f, g], [Parentheses(-1), CloseBrace, Tail, Tail]) == [f]
  {
    var f, g := Block(Plain, "", 0, true, 1), Block(Plain, "", 1, true, 0);
    ApplyTwo([], Tail, OpenBrace(0));
    ApplyTwo([f.(openParentheses := 0)], Parentheses(1), OpenBrace(1));
    ApplyConcat([f, g], [Parentheses(-1), CloseBrace], [Tail, Tail]);
    assert [Parentheses(-1), CloseBrace] + [Tail, Tail] == [Parentheses(-1), CloseBrace, Tail, Tail];
    ApplyTwo([f, g], Parentheses(-1), CloseBrace);
    ApplyTwo([f], Tail, Tail);
  }

  lemma RunThree<B>(effect: Effect<B>, a: Line, b: Line, c: Line)
    requires a.directive == b.directive == c.directive == Other
    ensures Run(effect, State([], []), [a, b, c]) == State(effect(c, effect(b, effect(a, []))), [])
  {
    assert [a, b, c][..2] == [a, b] && [a, b][..1] == [a] && [a][..0] == [];
    assert Run(effect, State([], []), [a]) == State(effect(a, []), []);
    assert Run(effect, State([], []), [a, b]) == State(effect(b, effect(a, [])), []);
  }

  lemma CallRuns(classOf: ClassMatcher)
    requires classOf(0, "f() {").None? && classOf(1, "g({").None? && classOf(2, "});").None?
    ensures Run(LineEffect(ReaderOf(classOf)), State([], []),
                [Line(0, Other, "f() {"), Line(1, Other, "g({"), Line(2, Other, "});")]).stack
         == [Block(Plain, "", 0, true, 1)]
  {
    FunctionLine(classOf);
    CallLine(classOf);
    CallEndLine(classOf);
    CallEvents();
    RunThree(LineEffect(ReaderOf(classOf)), Line(0, Other, "f() {"), Line(1, Other, "g({"), Line(2, Other, "});"));
  }

  lemma ThreeAreRead(a: string, b: string, c: string)
    ensures ReadFile([a, b, c]) == [Read(0, a), Read(1, b), Read(2, c)]
  {
  }

  lemma CallIsRead()
    ensures ReadFile(["f() {", "g({", "});"]) == [Line(0, Other, "f() {"), Line(1, Other, "g({"), Line(2, Other, "});")]
  {
    NoDirective("f() {");
    NoDirective("g({");
    NoDirective("});");
    ThreeAreRead("f() {", "g({", "});");
  }

  /** Parentheses are counted for the block that is innermost at the start of the
      line.  The call on the second and third line leaves its parenthesis open in
      the function although all parentheses are closed, and no class that is
      declared in the function after it is recognised. */
  lemma CallHidesClasses(classOf: ClassMatcher)
    requires classOf(0, "f() {").None? && classOf(1, "g({").None? && classOf(2, "});").None?
    ensures var stack := Run(LineEffect(ReaderOf(classOf)), State([], []), ReadFile(["f() {", "g({", "});"])).stack;
            && stack == [Block(Plain, "", 0, true, 1)]
            && forall name, num :: Apply(ClassDecl(name, num), stack) == stack
  {
    CallIsRead();
    CallRuns(classOf);
  }
}
