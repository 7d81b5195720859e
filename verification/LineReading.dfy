/** What the nesting state reads off a line, character by character. */
module LineReading {
  import opened Text
  import opened Preprocessor
  import opened Nesting
  import opened NestingStates

  // ---------- tokens ----------

  /** Tokens are read one character after the other: braces open and close, semicolons
      and closing parentheses end a head, and nothing else counts. */
  lemma TokensOfOne(num: nat, c: char)
    ensures Tokens(num, [c])
         == if c == '{' then [OpenBrace(num)]
            else if c == '}' then [CloseBrace]
            else if c == ';' || c == ')' then [Tail]
            else []
  {
    assert [c][1..] == "";
    assert Tokens(num, "") == [];
  }

  lemma {:induction false} TokensConcat(num: nat, a: string, b: string)
    ensures Tokens(num, a + b) == Tokens(num, a) + Tokens(num, b)
  {
    if a == "" {
      assert a + b == b;
    } else {
      assert (a + b)[1..] == a[1..] + b;
      TokensConcat(num, a[1..], b);
    }
  }

  // ---------- namespaces ----------

  lemma SpacesSkipped(s: string, i: nat, k: nat)
    requires i <= k <= |s| && AllSpace(s[i..k]) && (k == |s| || !IsSpace(s[k]))
    ensures SkipSpaces(s, i) == k
  {
    assert forall x :: i <= x < k ==> s[x] == s[i..k][x - i];
  }

  predicate AllInName(s: string) {
    forall i :: 0 <= i < |s| ==> InName(s[i])
  }

  lemma NameSkipped(s: string, i: nat, k: nat)
    requires i <= k <= |s| && AllInName(s[i..k]) && (k == |s| || !InName(s[k]))
    ensures SkipName(s, i) == k
  {
    assert forall x :: i <= x < k ==> s[x] == s[i..k][x - i];
  }

  lemma FiveParts(a: string, b: string, c: string, d: string, e: string, s: string)
    requires s == a + b + c + d + e
    ensures var i := |a|; var h := i + |b|; var j := h + |c|; var k := j + |d|;
            && k <= |s| && s[0..i] == a && s[i..h] == b && s[h..j] == c && s[j..k] == d && s[k..] == e
  {
  }

  lemma MatchedAt(s: string, i: nat, j: nat, k: nat)
    requires i + 9 <= j <= k <= |s| && SkipSpaces(s, 0) == i && s[i..i + 9] == "namespace"
    requires SkipSpaces(s, i + 9) == j && SkipName(s, j) == k && (i + 9 == |s| || !IsWord(s[i + 9]))
    ensures MatchNamespace(s) == Some((s[j..k], s[k..]))
  {
  }

  /** Where white space, a keyword, white space, a name and the rest of a text begin. */
  lemma SkippedParts(s: string, i: nat, h: nat, j: nat, k: nat)
    requires i < h <= j <= k <= |s| && AllSpace(s[0..i]) && !IsSpace(s[i]) && AllSpace(s[h..j]) && AllInName(s[j..k])
    requires k == |s| || (!InName(s[k]) && (j == k ==> !IsSpace(s[k])))
    ensures SkipSpaces(s, 0) == i && SkipSpaces(s, h) == j && SkipName(s, j) == k
  {
    assert j < k ==> s[j] == s[j..k][0];
    SpacesSkipped(s, 0, i);
    SpacesSkipped(s, h, j);
    NameSkipped(s, j, k);
  }

  lemma NamespaceMatched(space: string, blank: string, name: string, tail: string, s: string)
    requires s == space + "namespace" + blank + name + tail && AllSpace(space) && AllSpace(blank) && AllInName(name)
    requires name != "" && IsWord(name[0]) ==> blank != ""
    requires tail == "" || (!InName(tail[0]) && (name == "" ==> !IsSpace(tail[0])))
    ensures MatchNamespace(s) == Some((name, tail))
  {
    var i := |space|;
    var j := i + 9 + |blank|;
    var k := j + |name|;
    FiveParts(space, "namespace", blank, name, tail, s);
    assert s[i] == s[i..i + 9][0] == 'n';
    assert k < |s| ==> s[k] == s[k..][0] == tail[0];
    SkippedParts(s, i, i + 9, j, k);
    assert i + 9 < |s| ==> !IsWord(s[i + 9]) by {
      assert blank != "" ==> s[i + 9] == blank[0];
      assert blank == "" && name != "" ==> s[i + 9] == name[0];
    }
    MatchedAt(s, i, j, k);
  }

  /** The parts of a namespace head up to its brace. */
  predicate IsHeadText(space: string, blank: string, name: string, gap: string) {
    && AllSpace(space) && AllSpace(blank) && AllInName(name)
    && (name != "" && IsWord(name[0]) ==> blank != "")
    && '{' !in gap && (gap == "" || (!InName(gap[0]) && (name == "" ==> !IsSpace(gap[0]))))
  }

  lemma WithBrace(num: nat, s: string, name: string, gap: string, rest: string)
    requires MatchNamespace(s) == Some((name, gap + "{" + rest)) && '{' !in gap
    ensures Namespaces(num, s) == ([NamespaceDecl(name, num, true)] + Namespaces(num, rest).0, Namespaces(num, rest).1)
  {
    var tail := gap + "{" + rest;
    NamespacesStep(num, s, name, tail);
    assert tail[|gap|] == '{' && forall i :: 0 <= i < |gap| ==> tail[i] == gap[i];
    assert Find(tail, '{') == Some(|gap|) && tail[|gap| + 1..] == rest;
  }

  lemma WithoutBrace(num: nat, s: string, name: string, gap: string)
    requires MatchNamespace(s) == Some((name, gap)) && '{' !in gap
    ensures Namespaces(num, s) == ([NamespaceDecl(name, num, false)] + Namespaces(num, gap).0, Namespaces(num, gap).1)
  {
    NamespacesStep(num, s, name, gap);
    assert Find(gap, '{') == None;
  }

  lemma HeadMatched(space: string, blank: string, name: string, gap: string, rest: string)
    requires IsHeadText(space, blank, name, gap)
    ensures MatchNamespace(space + "namespace" + blank + name + gap) == Some((name, gap))
    ensures MatchNamespace(space + "namespace" + blank + name + (gap + "{" + rest)) == Some((name, gap + "{" + rest))
  {
    var tail := gap + "{" + rest;
    assert tail[0] == if gap == "" then '{' else gap[0];
    NamespaceMatched(space, blank, name, gap, space + "namespace" + blank + name + gap);
    NamespaceMatched(space, blank, name, tail, space + "namespace" + blank + name + tail);
  }

  lemma NamespaceIsWord(s: string, word: string)
    requires |word| <= |s| && word == s[..|word|] && AllWord(word) && (|word| == |s| || !IsWord(s[|word|]))
    requires WordAt(s, "namespace", 0) && (9 == |s| || !IsWord(s[9]))
    ensures word == "namespace"
  {
    forall x | 0 <= x < 9
      ensures IsWord(s[x])
    {
      assert s[x] == s[0..9][x] == "namespace"[x];
    }
    assert s[0..9] == s[..9];
  }

  /** A line that starts with another word, or with none, declares no namespace. */
  lemma NoNamespaceRead(num: nat, space: string, word: string, rest: string)
    requires AllSpace(space) && AllWord(word) && word != "namespace"
    requires rest == "" || (!IsWord(rest[0]) && (word == "" ==> !IsSpace(rest[0])))
    ensures Namespaces(num, space + word + rest) == ([], space + word + rest)
  {
    var s, i, t := space + word + rest, |space|, word + rest;
    assert s == space + t && s[i..] == t;
    assert t != "" ==> !IsSpace(t[0]) && s[i] == t[0];
    assert SkipSpaces(s, 0) == i;
    if WordAt(s, "namespace", i) && (i + 9 == |s| || !IsWord(s[i + 9])) {
      assert t[0..9] == s[i..i + 9];
      NamespaceIsWord(t, word);
    }
  }

  // ---------- lines ----------

  /** The events of a line apart from its parentheses. */
  function BodyEvents(line: Line, classOf: ClassMatcher): seq<Event> {
    SplitEvents(line.num, 0, Namespaces(line.num, line.text), classOf)
  }

  lemma ConcatFour(a: seq<Event>, b: seq<Event>, c: seq<Event>, d: seq<Event>)
    ensures a + b + c + d == a + ([] + b + c + d)
  {
  }

  /** Parentheses come first: they are counted for the block that is innermost at the
      start of the line. */
  lemma ParenthesesFirst(line: Line, classOf: ClassMatcher)
    ensures LineEvents(line, classOf) == ParenEvents(ParenDelta(line.text)) + BodyEvents(line, classOf)
  {
    var split := Namespaces(line.num, line.text);
    var head := classOf(line.num, split.1);
    ConcatFour(ParenEvents(ParenDelta(line.text)), split.0, ClassEvents(line.num, head),
               ClassTokens(line.num, split.1, head));
  }

  lemma ConcatFive(e: seq<Event>, b: seq<Event>, c: seq<Event>, d: seq<Event>)
    ensures [] + (e + b) + c + d == e + ([] + b + c + d)
  {
  }

  lemma BodyStep(num: nat, e: Event, split: (seq<Event>, string), classOf: ClassMatcher)
    ensures SplitEvents(num, 0, ([e] + split.0, split.1), classOf) == [e] + SplitEvents(num, 0, split, classOf)
  {
    var head := classOf(num, split.1);
    ConcatFive([e], split.0, ClassEvents(num, head), ClassTokens(num, split.1, head));
  }

  /** A namespace head is one event, followed by those of the text after its brace, or
      after its name when it has no brace on the line. */
  lemma NamespaceLine(line: Line, classOf: ClassMatcher, space: string, blank: string, name: string, gap: string,
                      rest: string)
    requires IsHeadText(space, blank, name, gap)
    ensures line.text == space + "namespace" + blank + name + (gap + "{" + rest) ==>
              BodyEvents(line, classOf)
              == [NamespaceDecl(name, line.num, true)] + BodyEvents(line.(text := rest), classOf)
    ensures line.text == space + "namespace" + blank + name + gap ==>
              BodyEvents(line, classOf)
              == [NamespaceDecl(name, line.num, false)] + BodyEvents(line.(text := gap), classOf)
  {
    HeadMatched(space, blank, name, gap, rest);
    if line.text == space + "namespace" + blank + name + (gap + "{" + rest) {
      WithBrace(line.num, line.text, name, gap, rest);
    }
    if line.text == space + "namespace" + blank + name + gap {
      WithoutBrace(line.num, line.text, name, gap);
    }
    BodyStep(line.num, NamespaceDecl(name, line.num, true), Namespaces(line.num, rest), classOf);
    BodyStep(line.num, NamespaceDecl(name, line.num, false), Namespaces(line.num, gap), classOf);
  }

  /** Any other line is a class head and the tokens after it, or just its tokens. */
  lemma OtherLine(line: Line, classOf: ClassMatcher, space: string, word: string, rest: string)
    requires AllSpace(space) && AllWord(word) && word != "namespace" && line.text == space + word + rest
    requires rest == "" || (!IsWord(rest[0]) && (word == "" ==> !IsSpace(rest[0])))
    ensures BodyEvents(line, classOf)
         == match classOf(line.num, line.text)
            case None => Tokens(line.num, line.text)
            case Some(head) => [ClassDecl(head.name, line.num)] + Tokens(line.num, head.rest)
  {
    NoNamespaceRead(line.num, space, word, rest);
  }

  // ---------- opening braces ----------

  /** How many opening braces some events stand for. */
  function Opens(events: seq<Event>): nat {
    if events == [] then 0
    else (if events[0].OpenBrace? || OpensItself(events[0]) then 1 else 0) + Opens(events[1..])
  }

  lemma {:induction false} OpensConcat(a: seq<Event>, b: seq<Event>)
    ensures Opens(a + b) == Opens(a) + Opens(b)
  {
    if a == [] {
      assert a + b == b;
    } else {
      assert (a + b)[1..] == a[1..] + b;
      OpensConcat(a[1..], b);
    }
  }

  lemma {:induction false} TokensOpen(num: nat, s: string)
    ensures Opens(Tokens(num, s)) == Count(s, '{')
  {
    if s != "" {
      TokensOpen(num, s[1..]);
      if IsToken(s[0]) {
        OpensConcat([TokenEvent(s[0], num)], Tokens(num, s[1..]));
        assert [TokenEvent(s[0], num)][1..] == [];
      }
    }
  }

  lemma NoBraceBefore(s: string, i: nat, j: nat, k: nat)
    requires i + 9 <= j <= k <= |s| && s[i..i + 9] == "namespace"
    requires forall x :: 0 <= x < i || i + 9 <= x < j ==> IsSpace(s[x])
    requires forall x :: j <= x < k ==> InName(s[x])
    ensures '{' !in s[..k]
  {
    forall x | 0 <= x < k
      ensures s[x] != '{'
    {
      assert i <= x < i + 9 ==> s[x] == s[i..i + 9][x - i] == "namespace"[x - i];
    }
  }

  lemma NameHasNoBrace(s: string, name: string, rest: string)
    requires MatchNamespace(s) == Some((name, rest))
    ensures Count(s, '{') == Count(rest, '{')
  {
    var i := SkipSpaces(s, 0);
    var j := SkipSpaces(s, i + 9);
    var k := SkipName(s, j);
    NoBraceBefore(s, i, j, k);
    CountFrom(s, k, '{');
  }

  lemma BraceCounted(rest: string)
    ensures Count(rest, '{') == Count(AfterBrace(rest), '{') + if Find(rest, '{').Some? then 1 else 0
  {
    if Find(rest, '{').Some? {
      var i := Find(rest, '{').value;
      CountFrom(rest, i, '{');
      assert rest[i..][1..] == rest[i + 1..];
    }
  }

  lemma {:induction false} NamespacesOpen(num: nat, s: string)
    ensures Opens(Namespaces(num, s).0) + Count(Namespaces(num, s).1, '{') == Count(s, '{')
    decreases |s|
  {
    var m := MatchNamespace(s);
    if m.Some? {
      var (name, rest) := m.value;
      NamespacesStep(num, s, name, rest);
      NamespacesOpen(num, AfterBrace(rest));
      NameHasNoBrace(s, name, rest);
      BraceCounted(rest);
      var e := NamespaceDecl(name, num, Find(rest, '{').Some?);
      OpensConcat([e], Namespaces(num, AfterBrace(rest)).0);
      assert [e][1..] == [];
    }
  }

  lemma OpensInParts(a: seq<Event>, b: seq<Event>, c: seq<Event>, d: seq<Event>)
    ensures Opens(a + b + c + d) == Opens(a) + Opens(b) + Opens(c) + Opens(d)
  {
    OpensConcat(a, b);
    OpensConcat(a + b, c);
    OpensConcat(a + b + c, d);
  }

  lemma OthersOpenNothing(delta: int, num: nat, head: Option<ClassHead>)
    ensures Opens(ParenEvents(delta)) == 0 && Opens(ClassEvents(num, head)) == 0
  {
    var a, b := ParenEvents(delta), ClassEvents(num, head);
    assert a == [] || a[1..] == [];
    assert b == [] || b[1..] == [];
  }

  /** Every opening brace of every line is read exactly once: as a plain one, or as that
      of a namespace. */
  lemma EveryBraceOnce(line: Line, classOf: ClassMatcher)
    requires Honest(classOf)
    ensures Opens(LineEvents(line, classOf)) == Count(line.text, '{')
  {
    var split := Namespaces(line.num, line.text);
    var head := classOf(line.num, split.1);
    ClassRun(line.num, split.1, head, []);
    TokensOpen(line.num, split.1);
    NamespacesOpen(line.num, line.text);
    OthersOpenNothing(ParenDelta(line.text), line.num, head);
    OpensInParts(ParenEvents(ParenDelta(line.text)), split.0, ClassEvents(line.num, head),
                 ClassTokens(line.num, split.1, head));
  }

  // ---------- a whole file ----------

  lemma NoParentheses(text: string)
    requires '(' !in text && ')' !in text
    ensures ParenEvents(ParenDelta(text)) == []
  {
    CountNone(text, '(');
    CountNone(text, ')');
  }

  lemma NothingAfter(line: Line, classOf: ClassMatcher)
    requires line.text == "" && classOf(line.num, "").None?
    ensures BodyEvents(line, classOf) == []
  {
    OtherLine(line, classOf, "", "", "");
  }

  lemma OpeningHasNoParentheses(space: string, blank: string, name: string, gap: string)
    requires IsHeadText(space, blank, name, gap) && '(' !in gap && ')' !in gap
    ensures var text := space + "namespace" + blank + name + (gap + "{"); '(' !in text && ')' !in text
  {
    assert '(' !in "namespace" && ')' !in "namespace" && '(' !in "{" && ')' !in "{";
  }

  lemma OpeningLine(line: Line, space: string, blank: string, name: string, gap: string, classOf: ClassMatcher)
    requires IsHeadText(space, blank, name, gap) && '(' !in gap && ')' !in gap && classOf(line.num, "").None?
    requires line.text == space + "namespace" + blank + name + (gap + "{")
    ensures LineEvents(line, classOf) == [NamespaceDecl(name, line.num, true)]
  {
    OpeningHasNoParentheses(space, blank, name, gap);
    NoParentheses(line.text);
    ParenthesesFirst(line, classOf);
    NothingAfter(line.(text := ""), classOf);
    assert gap + "{" + "" == gap + "{";
    NamespaceLine(line, classOf, space, blank, name, gap, "");
  }

  lemma ClosingLine(line: Line, classOf: ClassMatcher)
    requires line.text == "}" && classOf(line.num, "}").None?
    ensures LineEvents(line, classOf) == [CloseBrace]
  {
    NoParentheses(line.text);
    ParenthesesFirst(line, classOf);
    assert line.text[0] == '}' && !IsSpace('}') && !IsWord('}');
    OtherLine(line, classOf, "", "", line.text);
    TokensOfOne(line.num, '}');
  }

  lemma TwoEvents(a: Line, b: Line, eventsOf: LineReader)
    ensures AllEvents([a, b], eventsOf) == eventsOf(a) + eventsOf(b)
  {
    assert [a, b][..1] == [a] && [a][..0] == [];
    assert AllEvents([a], eventsOf) == [] + eventsOf(a);
  }

  lemma TwoFirstBranches(a: Line, b: Line)
    requires a.directive == b.directive == Other
    ensures Flags([a, b], []) == [] && FirstBranches([a, b], []) == [a, b]
  {
    assert [a, b][..1] == [a] && [a][..0] == [];
    assert Flags([a], []) == [] && FirstBranches([a], []) == [a];
  }

  lemma TwoLines(a: Line, b: Line, eventsOf: LineReader, head: Event)
    requires a.directive == b.directive == Other && OpensItself(head)
    requires eventsOf(a) == [head] && eventsOf(b) == [CloseBrace]
    ensures Reported(Shapes(Run(LineEffect(eventsOf), State([], []), [a, b]).stack)) == []
  {
    TwoFirstBranches(a, b);
    TwoEvents(a, b, eventsOf);
    var nest := Scope(head, [], 0, Done, Done);
    assert Events(nest) == [head] + [CloseBrace];
    assert Events(nest)[..2] == Events(nest);
    FileReportsOpenBlocks(eventsOf, [a, b], nest, 2);
  }

  lemma HeadIsNoDirective(space: string, text: string)
    requires AllSpace(space)
    ensures Classify(space + "namespace" + text) == Other
  {
    var word := "namespace" + text;
    assert word[0] == 'n' && space + "namespace" + text == space + word;
    NoHashNoDirective(space, word);
  }

  /** A namespace that is opened on one line, however its head is written, and closed on
      the next is not reported. */
  lemma NamespaceIsClosed(space: string, blank: string, name: string, gap: string, a: Line, b: Line,
                          classOf: ClassMatcher)
    requires IsHeadText(space, blank, name, gap) && '(' !in gap && ')' !in gap
    requires a.text == space + "namespace" + blank + name + (gap + "{") && b.text == "}"
    requires a.directive == b.directive == Other && classOf(a.num, "").None? && classOf(b.num, "}").None?
    ensures Reported(Shapes(Run(LineEffect(ReaderOf(classOf)), State([], []), [a, b]).stack)) == []
  {
    OpeningLine(a, space, blank, name, gap, classOf);
    ClosingLine(b, classOf);
    TwoLines(a, b, ReaderOf(classOf), NamespaceDecl(name, a.num, true));
  }
}
