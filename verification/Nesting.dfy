/** The brace-nesting state machine of cpplint: which namespaces, classes and
    blocks are open, line by line. */
module Nesting {
  import opened Text
  import opened Preprocessor

  datatype Kind = Namespace | Class | Plain

  datatype Block = Block(kind: Kind, name: string, line: nat, seenOpenBrace: bool, openParentheses: int)

  /** A class declaration at the start of a text: its name and what follows. */
  datatype ClassHead = ClassHead(name: string, rest: string)

  /** Recognises class declarations; the regular expression and the look-ahead
      for template arguments are behind it. */
  type ClassMatcher = (nat, string) -> Option<ClassHead>

  // ---------- what a line contains ----------

  datatype Event =
    | Parentheses(delta: int)
    | NamespaceDecl(name: string, line: nat, open: bool)
    | ClassDecl(name: string, line: nat)
    | OpenBrace(line: nat)
    | Tail
    | CloseBrace

  predicate IsToken(c: char) {
    c == '{' || c == ';' || c == ')' || c == '}'
  }

  function TokenEvent(c: char, num: nat): Event
    requires IsToken(c)
  {
    if c == '{' then OpenBrace(num) else if c == '}' then CloseBrace else Tail
  }

  /** The braces, semicolons and closing parentheses of a text, in order. */
  function Tokens(num: nat, s: string): seq<Event> {
    if s == "" then []
    else if IsToken(s[0]) then [TokenEvent(s[0], num)] + Tokens(num, s[1..])
    else Tokens(num, s[1..])
  }

  predicate InName(c: char) {
    IsWord(c) || c == ':'
  }

  function SkipName(s: string, i: nat): (r: nat)
    requires i <= |s|
    ensures i <= r <= |s| && (r < |s| ==> !InName(s[r]))
    ensures forall k :: i <= k < r ==> InName(s[k])
    decreases |s| - i
  {
    if i < |s| && InName(s[i]) then SkipName(s, i + 1) else i
  }

  /** `^\s*namespace\b\s*([:\w]+)?(.*)$`: the name, possibly empty, and the rest. */
  function MatchNamespace(s: string): (r: Option<(string, string)>)
    ensures r.Some? ==> |r.value.1| < |s|
  {
    var i := SkipSpaces(s, 0);
    if WordAt(s, "namespace", i) && (i + 9 == |s| || !IsWord(s[i + 9])) then
      var j := SkipSpaces(s, i + 9);
      var k := SkipName(s, j);
      Some((s[j..k], s[k..]))
    else None
  }

  function Find(s: string, c: char): (r: Option<nat>)
    ensures r.Some? ==> r.value < |s| && s[r.value] == c && forall i :: 0 <= i < r.value ==> s[i] != c
    ensures r.None? ==> c !in s
  {
    if s == "" then None
    else if s[0] == c then Some(0)
    else match Find(s[1..], c) case None => None case Some(i) => Some(i + 1)
  }

  /** What follows the first opening brace, or everything. */
  function AfterBrace(s: string): (r: string)
    ensures |r| <= |s|
  {
    match Find(s, '{') case None => s case Some(i) => s[i + 1..]
  }

  /** The namespace declarations at the start of a line, and what follows them. */
  function Namespaces(num: nat, s: string): (seq<Event>, string)
    decreases |s|
  {
    match MatchNamespace(s)
    case None => ([], s)
    case Some((name, rest)) =>
      var (events, last) := Namespaces(num, AfterBrace(rest));
      ([NamespaceDecl(name, num, Find(rest, '{').Some?)] + events, last)
  }

  function ParenDelta(text: string): int {
    Count(text, '(') - Count(text, ')')
  }

  function ParenEvents(delta: int): seq<Event> {
    if delta == 0 then [] else [Parentheses(delta)]
  }

  function ClassEvents(num: nat, head: Option<ClassHead>): seq<Event> {
    if head.Some? then [ClassDecl(head.value.name, num)] else []
  }

  function ClassTokens(num: nat, s: string, head: Option<ClassHead>): seq<Event> {
    Tokens(num, if head.Some? then head.value.rest else s)
  }

  /** The events of a line that is split into its namespaces and the rest. */
  function SplitEvents(num: nat, delta: int, split: (seq<Event>, string), classOf: ClassMatcher): seq<Event> {
    var head := classOf(num, split.1);
    ParenEvents(delta) + split.0 + ClassEvents(num, head) + ClassTokens(num, split.1, head)
  }

  function LineEvents(line: Line, classOf: ClassMatcher): seq<Event> {
    SplitEvents(line.num, ParenDelta(line.text), Namespaces(line.num, line.text), classOf)
  }

  /** What is read off a line. */
  type LineReader = Line -> seq<Event>

  function ReaderOf(classOf: ClassMatcher): LineReader {
    line => LineEvents(line, classOf)
  }

  // ---------- what an event does ----------

  function Top(stack: seq<Block>): Block
    requires stack != []
  {
    stack[|stack| - 1]
  }

  function SetTop(stack: seq<Block>, b: Block): seq<Block>
    requires stack != []
  {
    stack[..|stack| - 1] + [b]
  }

  predicate SeenOpenBrace(stack: seq<Block>) {
    stack == [] || Top(stack).seenOpenBrace
  }

  function Apply(e: Event, stack: seq<Block>): seq<Block> {
    match e
    case Parentheses(d) =>
      if stack == [] then []
      else SetTop(stack, Top(stack).(openParentheses := Top(stack).openParentheses + d))
    case NamespaceDecl(name, num, open) => stack + [Block(Namespace, name, num, open, 0)]
    case ClassDecl(name, num) =>
      if stack == [] || Top(stack).openParentheses == 0 then stack + [Block(Class, name, num, false, 0)] else stack
    case OpenBrace(num) =>
      if !SeenOpenBrace(stack) then SetTop(stack, Top(stack).(seenOpenBrace := true))
      else stack + [Block(Plain, "", num, true, 0)]
    case Tail => if !SeenOpenBrace(stack) then stack[..|stack| - 1] else stack
    case CloseBrace => if stack == [] then [] else stack[..|stack| - 1]
  }

  function ApplyAll(stack: seq<Block>, events: seq<Event>): seq<Block>
    decreases |events|
  {
    if events == [] then stack else ApplyAll(Apply(events[0], stack), events[1..])
  }

  lemma {:induction false} ApplyConcat(stack: seq<Block>, a: seq<Event>, b: seq<Event>)
    ensures ApplyAll(stack, a + b) == ApplyAll(ApplyAll(stack, a), b)
    decreases |a|
  {
    if a == [] {
      assert a + b == b;
    } else {
      assert (a + b)[1..] == a[1..] + b;
      ApplyConcat(Apply(a[0], stack), a[1..], b);
    }
  }

  // ---------- well-formed nests ----------

  /** A sequence of declarations, blocks and statements.  A head may be followed
      by parentheses before its brace or semicolon comes. */
  datatype Nest =
    | Done
    | Scope(head: Event, gap: seq<Event>, brace: nat, body: Nest, rest: Nest)
    | Forward(head: Event, gap: seq<Event>, rest: Nest)
    | Braces(line: nat, body: Nest, rest: Nest)
    | Statement(events: seq<Event>, rest: Nest)

  /** How many parentheses some events open, less those they close. */
  function Delta(events: seq<Event>): int {
    if events == [] then 0
    else (if events[0].Parentheses? then events[0].delta else 0) + Delta(events[1..])
  }

  /** The same for a nest, without what lies in its blocks. */
  function TopDelta(n: Nest): int {
    match n
    case Done => 0
    case Scope(_, _, _, _, rest) => TopDelta(rest)
    case Forward(_, _, rest) => TopDelta(rest)
    case Braces(_, _, rest) => TopDelta(rest)
    case Statement(events, rest) => Delta(events) + TopDelta(rest)
  }

  /** Any parentheses, semicolons and closing parentheses, and class keywords that
      stand between open parentheses; `open` are open before. */
  predicate StatementOk(events: seq<Event>, open: int, nested: bool) {
    if events == [] then true
    else
      match events[0]
      case Parentheses(d) => StatementOk(events[1..], open + d, nested)
      case Tail => StatementOk(events[1..], open, nested)
      case ClassDecl(_, _) => nested && open != 0 && StatementOk(events[1..], open, nested)
      case _ => false
  }

  predicate GapOk(gap: seq<Event>) {
    forall i :: 0 <= i < |gap| ==> gap[i].Parentheses?
  }

  /** A declaration that is recognised where `open` parentheses are open. */
  predicate IsHead(e: Event, nested: bool, open: int) {
    e.NamespaceDecl? || (e.ClassDecl? && (nested ==> open == 0))
  }

  predicate OpensItself(e: Event) {
    e.NamespaceDecl? && e.open
  }

  /** The nest may start where `open` parentheses are open, inside a block or not.
      Parentheses need not balance and may be open around blocks. */
  predicate WellFormed(n: Nest, nested: bool, open: int) {
    match n
    case Done => true
    case Scope(head, gap, _, body, rest) =>
      && IsHead(head, nested, open) && GapOk(gap) && (OpensItself(head) ==> gap == [])
      && WellFormed(body, true, Delta(gap)) && WellFormed(rest, nested, open)
    case Forward(head, gap, rest) =>
      IsHead(head, nested, open) && !OpensItself(head) && GapOk(gap) && WellFormed(rest, nested, open)
    case Braces(_, body, rest) => WellFormed(body, true, 0) && WellFormed(rest, nested, open)
    case Statement(events, rest) => StatementOk(events, open, nested) && WellFormed(rest, nested, open + Delta(events))
  }

  function Opening(head: Event, gap: seq<Event>, brace: nat): seq<Event> {
    if OpensItself(head) then [head] else [head] + gap + [OpenBrace(brace)]
  }

  function Events(n: Nest): seq<Event> {
    match n
    case Done => []
    case Scope(head, gap, brace, body, rest) =>
      Opening(head, gap, brace) + Events(body) + [CloseBrace] + Events(rest)
    case Forward(head, gap, rest) => ([head] + gap + [Tail]) + Events(rest)
    case Braces(line, body, rest) => [OpenBrace(line)] + Events(body) + [CloseBrace] + Events(rest)
    case Statement(events, rest) => events + Events(rest)
  }

  /** A block without its parenthesis count. */
  datatype Shape = Shape(kind: Kind, name: string, line: nat, seenOpenBrace: bool)

  function ShapeOf(b: Block): Shape {
    Shape(b.kind, b.name, b.line, b.seenOpenBrace)
  }

  function Shapes(stack: seq<Block>): seq<Shape> {
    seq(|stack|, i requires 0 <= i < |stack| => ShapeOf(stack[i]))
  }

  function HeadBlock(head: Event, seen: bool, open: int): Block
    requires head.NamespaceDecl? || head.ClassDecl?
  {
    match head
    case NamespaceDecl(name, line, _) => Block(Namespace, name, line, seen, open)
    case ClassDecl(name, line) => Block(Class, name, line, seen, open)
  }

  function HeadShape(head: Event, seen: bool): Shape
    requires head.NamespaceDecl? || head.ClassDecl?
  {
    ShapeOf(HeadBlock(head, seen, 0))
  }

  /** The blocks that are open after the first `k` events of a nest, outermost first. */
  function OpenAfter(n: Nest, nested: bool, open: int, k: nat): seq<Shape>
    requires WellFormed(n, nested, open) && k <= |Events(n)|
  {
    match n
    case Done => []
    case Scope(head, gap, brace, body, rest) =>
      var opening, inner := |Opening(head, gap, brace)|, |Events(body)|;
      if k == 0 then []
      else if k < opening then [HeadShape(head, false)]
      else if k <= opening + inner then [HeadShape(head, true)] + OpenAfter(body, true, Delta(gap), k - opening)
      else OpenAfter(rest, nested, open, k - opening - inner - 1)
    case Forward(head, gap, rest) =>
      if k == 0 then []
      else if k <= 1 + |gap| then [HeadShape(head, false)]
      else OpenAfter(rest, nested, open, k - 2 - |gap|)
    case Braces(line, body, rest) =>
      var inner := |Events(body)|;
      if k == 0 then []
      else if k <= 1 + inner then [Shape(Plain, "", line, true)] + OpenAfter(body, true, 0, k - 1)
      else OpenAfter(rest, nested, open, k - inner - 2)
    case Statement(events, rest) =>
      if k <= |events| then [] else OpenAfter(rest, nested, open + Delta(events), k - |events|)
  }

  /** A stack on which a declaration may start, with `open` parentheses open in
      its top block. */
  predicate Ready(stack: seq<Block>, open: int) {
    stack != [] ==> Top(stack).seenOpenBrace && Top(stack).openParentheses == open
  }

  /** `stack` with `d` more parentheses open in its top block. */
  function AddOpen(stack: seq<Block>, d: int): (r: seq<Block>)
    ensures |r| == |stack|
  {
    if stack == [] then [] else SetTop(stack, Top(stack).(openParentheses := Top(stack).openParentheses + d))
  }

  lemma ShapesIgnoreOpen(stack: seq<Block>, d: int)
    ensures Shapes(AddOpen(stack, d)) == Shapes(stack)
  {
  }

  lemma AddOpenTwice(stack: seq<Block>, d: int, e: int)
    ensures AddOpen(AddOpen(stack, d), e) == AddOpen(stack, d + e)
    ensures AddOpen(stack, 0) == stack
  {
  }

  lemma {:induction false} StatementRuns(stack: seq<Block>, events: seq<Event>, open: int, k: nat)
    requires Ready(stack, open) && StatementOk(events, open, stack != []) && k <= |events|
    ensures Shapes(ApplyAll(stack, events[..k])) == Shapes(stack)
    ensures ApplyAll(stack, events) == AddOpen(stack, Delta(events))
    decreases |events|
  {
    AddOpenTwice(stack, 0, 0);
    if events != [] {
      var d := if events[0].Parentheses? then events[0].delta else 0;
      var next := AddOpen(stack, d);
      assert Apply(events[0], stack) == next;
      ShapesIgnoreOpen(stack, d);
      StatementRuns(next, events[1..], open + d, if k == 0 then 0 else k - 1);
      AddOpenTwice(stack, d, Delta(events[1..]));
      assert k > 0 ==> events[..k][1..] == events[1..][..k - 1];
    }
  }

  lemma {:induction false} GapRuns(stack: seq<Block>, gap: seq<Event>, k: nat)
    requires GapOk(gap) && k <= |gap|
    ensures Shapes(ApplyAll(stack, gap[..k])) == Shapes(stack)
    ensures ApplyAll(stack, gap) == AddOpen(stack, Delta(gap))
    decreases |gap|
  {
    AddOpenTwice(stack, 0, 0);
    if gap != [] {
      var d := gap[0].delta;
      assert Apply(gap[0], stack) == AddOpen(stack, d);
      ShapesIgnoreOpen(stack, d);
      GapRuns(AddOpen(stack, d), gap[1..], if k == 0 then 0 else k - 1);
      AddOpenTwice(stack, d, Delta(gap[1..]));
      assert k > 0 ==> gap[..k][1..] == gap[1..][..k - 1];
    }
  }

  lemma ApplyOne(stack: seq<Block>, e: Event)
    ensures ApplyAll(stack, [e]) == Apply(e, stack)
  {
  }

  lemma ShapesPush(stack: seq<Block>, b: Block)
    ensures Shapes(stack + [b]) == Shapes(stack) + [ShapeOf(b)]
  {
  }

  /** A head that is recognised, and the parentheses after it. */
  lemma HeadRuns(stack: seq<Block>, head: Event, gap: seq<Event>, open: int, k: nat)
    requires Ready(stack, open) && IsHead(head, stack != [], open) && !OpensItself(head) && GapOk(gap) && k <= |gap|
    ensures Shapes(ApplyAll(stack, [head] + gap[..k])) == Shapes(stack) + [HeadShape(head, false)]
    ensures ApplyAll(stack, [head] + gap) == stack + [HeadBlock(head, false, Delta(gap))]
  {
    var pushed := stack + [HeadBlock(head, false, 0)];
    ApplyOne(stack, head);
    assert Apply(head, stack) == pushed;
    GapRuns(pushed, gap, k);
    ApplyConcat(stack, [head], gap[..k]);
    ApplyConcat(stack, [head], gap);
    ShapesPush(stack, HeadBlock(head, false, 0));
    assert AddOpen(pushed, Delta(gap)) == stack + [HeadBlock(head, false, Delta(gap))];
  }

  lemma OpeningRuns(stack: seq<Block>, head: Event, gap: seq<Event>, brace: nat, open: int)
    requires Ready(stack, open) && IsHead(head, stack != [], open) && GapOk(gap) && (OpensItself(head) ==> gap == [])
    ensures ApplyAll(stack, Opening(head, gap, brace)) == stack + [HeadBlock(head, true, Delta(gap))]
  {
    if OpensItself(head) {
      ApplyOne(stack, head);
    } else {
      HeadRuns(stack, head, gap, open, 0);
      var pushed := stack + [HeadBlock(head, false, Delta(gap))];
      ApplyConcat(stack, [head] + gap, [OpenBrace(brace)]);
      ApplyOne(pushed, OpenBrace(brace));
      assert Apply(OpenBrace(brace), pushed) == stack + [HeadBlock(head, true, Delta(gap))];
    }
  }

  lemma ForwardRuns(stack: seq<Block>, head: Event, gap: seq<Event>, open: int)
    requires Ready(stack, open) && IsHead(head, stack != [], open) && !OpensItself(head) && GapOk(gap)
    ensures ApplyAll(stack, [head] + gap + [Tail]) == stack
  {
    HeadRuns(stack, head, gap, open, 0);
    var pushed := stack + [HeadBlock(head, false, Delta(gap))];
    ApplyConcat(stack, [head] + gap, [Tail]);
    ApplyOne(pushed, Tail);
    assert Apply(Tail, pushed) == stack;
  }

  lemma BraceRuns(stack: seq<Block>, line: nat, open: int)
    requires Ready(stack, open)
    ensures ApplyAll(stack, [OpenBrace(line)]) == stack + [Block(Plain, "", line, true, 0)]
  {
    ApplyOne(stack, OpenBrace(line));
  }

  /** A block opened, filled with a body that comes back to it, and closed. */
  lemma BodyRuns(stack: seq<Block>, block: Block, opening: seq<Event>, body: seq<Event>, d: int)
    requires ApplyAll(stack, opening) == stack + [block]
    requires ApplyAll(stack + [block], body) == AddOpen(stack + [block], d)
    ensures ApplyAll(stack, opening + body + [CloseBrace]) == stack
  {
    var full := AddOpen(stack + [block], d);
    ApplyConcat(stack, opening, body);
    ApplyConcat(stack, opening + body, [CloseBrace]);
    ApplyOne(full, CloseBrace);
    assert Apply(CloseBrace, full) == stack;
  }

  lemma BlockRuns(stack: seq<Block>, block: Block, opening: seq<Event>, body: seq<Event>, rest: seq<Event>, d: int)
    requires ApplyAll(stack, opening) == stack + [block]
    requires ApplyAll(stack + [block], body) == AddOpen(stack + [block], d)
    ensures ApplyAll(stack, opening + body + [CloseBrace] + rest) == ApplyAll(stack, rest)
  {
    BodyRuns(stack, block, opening, body, d);
    ApplyConcat(stack, opening + body + [CloseBrace], rest);
  }

  lemma AddOpenReady(stack: seq<Block>, open: int, d: int)
    requires Ready(stack, open)
    ensures Ready(AddOpen(stack, d), open + d)
  {
  }

  lemma RunsThenRuns(stack: seq<Block>, a: seq<Event>, b: seq<Event>, d: int, e: int)
    requires ApplyAll(stack, a) == AddOpen(stack, d)
    requires ApplyAll(AddOpen(stack, d), b) == AddOpen(AddOpen(stack, d), e)
    ensures ApplyAll(stack, a + b) == AddOpen(stack, d + e)
  {
    ApplyConcat(stack, a, b);
    AddOpenTwice(stack, d, e);
  }

  /** A nest returns the stack to where it was, except that its unbalanced
      parentheses stay counted in the block it stands in. */
  lemma {:induction false} NestRuns(stack: seq<Block>, n: Nest, open: int)
    requires Ready(stack, open) && WellFormed(n, stack != [], open)
    ensures ApplyAll(stack, Events(n)) == AddOpen(stack, TopDelta(n))
    decreases n, 1
  {
    match n
    case Done => AddOpenTwice(stack, 0, 0);
    case Scope(_, _, _, _, _) => ScopeRuns(stack, n, open);
    case Forward(head, gap, rest) =>
      ForwardRuns(stack, head, gap, open);
      NestRuns(stack, rest, open);
      ApplyConcat(stack, [head] + gap + [Tail], Events(rest));
    case Braces(line, body, rest) =>
      var block := Block(Plain, "", line, true, 0);
      BraceRuns(stack, line, open);
      NestRuns(stack + [block], body, 0);
      NestRuns(stack, rest, open);
      BlockRuns(stack, block, [OpenBrace(line)], Events(body), Events(rest), TopDelta(body));
    case Statement(_, _) => StatementNestRuns(stack, n, open);
  }

  lemma {:induction false} ScopeRuns(stack: seq<Block>, n: Nest, open: int)
    requires n.Scope? && Ready(stack, open) && WellFormed(n, stack != [], open)
    ensures ApplyAll(stack, Events(n)) == AddOpen(stack, TopDelta(n))
    decreases n, 0
  {
    var opening, block := Opening(n.head, n.gap, n.brace), HeadBlock(n.head, true, Delta(n.gap));
    OpeningRuns(stack, n.head, n.gap, n.brace, open);
    NestRuns(stack + [block], n.body, Delta(n.gap));
    NestRuns(stack, n.rest, open);
    BlockRuns(stack, block, opening, Events(n.body), Events(n.rest), TopDelta(n.body));
  }

  lemma {:induction false} StatementNestRuns(stack: seq<Block>, n: Nest, open: int)
    requires n.Statement? && Ready(stack, open) && WellFormed(n, stack != [], open)
    ensures ApplyAll(stack, Events(n)) == AddOpen(stack, TopDelta(n))
    decreases n, 0
  {
    var d := Delta(n.events);
    StatementRuns(stack, n.events, open, 0);
    AddOpenReady(stack, open, d);
    NestRuns(AddOpen(stack, d), n.rest, open + d);
    RunsThenRuns(stack, n.events, Events(n.rest), d, TopDelta(n.rest));
  }

  lemma BlockReturns(stack: seq<Block>, block: Block, opening: seq<Event>, body: Nest)
    requires block.seenOpenBrace && WellFormed(body, true, block.openParentheses)
    requires ApplyAll(stack, opening) == stack + [block]
    ensures ApplyAll(stack, opening + Events(body) + [CloseBrace]) == stack
  {
    NestRuns(stack + [block], body, block.openParentheses);
    BodyRuns(stack, block, opening, Events(body), TopDelta(body));
  }

  /** A nest always returns to the blocks it started in; it returns to the very
      stack if and only if it stands in no block or its parentheses outside its
      own blocks balance. */
  lemma NestReturns(stack: seq<Block>, n: Nest, open: int)
    requires Ready(stack, open) && WellFormed(n, stack != [], open)
    ensures Shapes(ApplyAll(stack, Events(n))) == Shapes(stack)
    ensures ApplyAll(stack, Events(n)) == stack <==> stack == [] || TopDelta(n) == 0
  {
    NestRuns(stack, n, open);
    ShapesIgnoreOpen(stack, TopDelta(n));
    AddOpenTwice(stack, 0, 0);
    if stack != [] && TopDelta(n) != 0 {
      assert Top(AddOpen(stack, TopDelta(n))).openParentheses != Top(stack).openParentheses;
    }
  }

  /** In a block, a class that is declared after a nest is recognised if and only if
      no parenthesis is left open there. */
  lemma ClassRecognised(stack: seq<Block>, n: Nest, open: int, name: string, num: nat)
    requires stack != [] && Ready(stack, open) && WellFormed(n, true, open)
    ensures var after := ApplyAll(stack, Events(n));
            ApplyAll(stack, Events(n) + [ClassDecl(name, num)])
            == if open + TopDelta(n) == 0 then after + [Block(Class, name, num, false, 0)] else after
  {
    var after := ApplyAll(stack, Events(n));
    NestRuns(stack, n, open);
    ApplyConcat(stack, Events(n), [ClassDecl(name, num)]);
    ApplyOne(after, ClassDecl(name, num));
  }

  // ---------- nests that are cut ----------

  lemma TakeConcat<T>(a: seq<T>, b: seq<T>, k: nat)
    requires k <= |a| + |b|
    ensures (a + b)[..k] == if k <= |a| then a[..k] else a + b[..k - |a|]
  {
  }

  lemma TakeInside<T>(a: seq<T>, b: seq<T>, c: seq<T>, k: nat)
    requires |a| <= k <= |a| + |b|
    ensures (a + b + c)[..k] == a + b[..k - |a|]
  {
    TakeConcat(a + b, c, k);
    TakeConcat(a, b, k);
    assert a[..|a|] == a && b[..0] == [];
  }

  lemma ConcatThree<T>(a: seq<T>, b: seq<T>, c: seq<T>)
    ensures a + b + c == a + (b + c)
  {
  }

  lemma CutAfter(stack: seq<Block>, a: seq<Event>, b: seq<Event>, k: nat)
    requires |a| <= k <= |a| + |b| && ApplyAll(stack, a) == stack
    ensures ApplyAll(stack, (a + b)[..k]) == ApplyAll(stack, b[..k - |a|])
  {
    TakeConcat(a, b, k);
    assert a[..|a|] == a && b[..0] == [];
    ApplyConcat(stack, a, b[..k - |a|]);
  }

  lemma CutHead(stack: seq<Block>, head: Event, gap: seq<Event>, last: Event, open: int, k: nat)
    requires Ready(stack, open) && IsHead(head, stack != [], open) && !OpensItself(head) && GapOk(gap)
    requires 0 < k <= 1 + |gap|
    ensures Shapes(ApplyAll(stack, ([head] + gap + [last])[..k])) == Shapes(stack) + [HeadShape(head, false)]
  {
    assert ([head] + gap + [last])[..k] == [head] + gap[..k - 1];
    HeadRuns(stack, head, gap, open, k - 1);
  }

  lemma CutOpening(opening: seq<Event>, body: seq<Event>, rest: seq<Event>, k: nat)
    requires k <= |opening|
    ensures (opening + body + [CloseBrace] + rest)[..k] == opening[..k]
  {
    TakeConcat(opening + body + [CloseBrace], rest, k);
    TakeConcat(opening + body, [CloseBrace], k);
    TakeConcat(opening, body, k);
  }

  /** Cutting inside a block. */
  lemma CutInside(stack: seq<Block>, block: Block, opening: seq<Event>, body: seq<Event>, rest: seq<Event>, k: nat,
                  open: seq<Shape>)
    requires ApplyAll(stack, opening) == stack + [block]
    requires |opening| <= k <= |opening| + |body|
    requires Shapes(ApplyAll(stack + [block], body[..k - |opening|])) == Shapes(stack + [block]) + open
    ensures Shapes(ApplyAll(stack, (opening + body + [CloseBrace] + rest)[..k]))
         == Shapes(stack) + ([ShapeOf(block)] + open)
  {
    TakeConcat(opening + body + [CloseBrace], rest, k);
    TakeInside(opening, body, [CloseBrace], k);
    ApplyConcat(stack, opening, body[..k - |opening|]);
    ShapesPush(stack, block);
    ConcatThree(Shapes(stack), [ShapeOf(block)], open);
  }

  /** However much of a nest has been read, the stack holds its starting blocks
      and then the blocks of the nest that are still open, outermost first. */
  lemma {:induction false} NestCut(stack: seq<Block>, n: Nest, open: int, k: nat)
    requires Ready(stack, open) && WellFormed(n, stack != [], open) && k <= |Events(n)|
    ensures Shapes(ApplyAll(stack, Events(n)[..k])) == Shapes(stack) + OpenAfter(n, stack != [], open, k)
    decreases n, 2
  {
    if k > 0 {
      match n
      case Scope(_, _, _, _, _) => CutScope(stack, n, open, k);
      case Forward(_, _, _) => CutForward(stack, n, open, k);
      case Braces(_, _, _) => CutBraces(stack, n, open, k);
      case Statement(_, _) => CutStatement(stack, n, open, k);
    }
  }

  lemma {:induction false} CutScope(stack: seq<Block>, n: Nest, open: int, k: nat)
    requires n.Scope? && Ready(stack, open) && WellFormed(n, stack != [], open) && 0 < k <= |Events(n)|
    ensures Shapes(ApplyAll(stack, Events(n)[..k])) == Shapes(stack) + OpenAfter(n, stack != [], open, k)
    decreases n, 1
  {
    var opening, block := Opening(n.head, n.gap, n.brace), HeadBlock(n.head, true, Delta(n.gap));
    if k < |opening| {
      CutOpening(opening, Events(n.body), Events(n.rest), k);
      CutHead(stack, n.head, n.gap, OpenBrace(n.brace), open, k);
    } else {
      OpeningRuns(stack, n.head, n.gap, n.brace, open);
      if k <= |opening| + |Events(n.body)| {
        CutInBody(stack, block, opening, n.body, Events(n.rest), k);
      } else {
        BlockReturns(stack, block, opening, n.body);
        CutInRest(stack, opening + Events(n.body) + [CloseBrace], n.rest, open, k);
      }
    }
  }

  lemma {:induction false} CutBraces(stack: seq<Block>, n: Nest, open: int, k: nat)
    requires n.Braces? && Ready(stack, open) && WellFormed(n, stack != [], open) && 0 < k <= |Events(n)|
    ensures Shapes(ApplyAll(stack, Events(n)[..k])) == Shapes(stack) + OpenAfter(n, stack != [], open, k)
    decreases n, 1
  {
    var opening, block := [OpenBrace(n.line)], Block(Plain, "", n.line, true, 0);
    BraceRuns(stack, n.line, open);
    if k <= 1 + |Events(n.body)| {
      CutInBody(stack, block, opening, n.body, Events(n.rest), k);
    } else {
      BlockReturns(stack, block, opening, n.body);
      CutInRest(stack, opening + Events(n.body) + [CloseBrace], n.rest, open, k);
    }
  }

  lemma {:induction false} CutInBody(stack: seq<Block>, block: Block, opening: seq<Event>, body: Nest, rest: seq<Event>,
                                     k: nat)
    requires block.seenOpenBrace && WellFormed(body, true, block.openParentheses)
    requires ApplyAll(stack, opening) == stack + [block]
    requires |opening| <= k <= |opening| + |Events(body)|
    ensures Shapes(ApplyAll(stack, (opening + Events(body) + [CloseBrace] + rest)[..k]))
         == Shapes(stack) + ([ShapeOf(block)] + OpenAfter(body, true, block.openParentheses, k - |opening|))
    decreases body, 3
  {
    NestCut(stack + [block], body, block.openParentheses, k - |opening|);
    CutInside(stack, block, opening, Events(body), rest, k, OpenAfter(body, true, block.openParentheses, k - |opening|));
  }

  /** Cutting after events that come back to the same stack. */
  lemma {:induction false} CutInRest(stack: seq<Block>, before: seq<Event>, rest: Nest, open: int, k: nat)
    requires Ready(stack, open) && WellFormed(rest, stack != [], open)
    requires ApplyAll(stack, before) == stack
    requires |before| <= k <= |before| + |Events(rest)|
    ensures Shapes(ApplyAll(stack, (before + Events(rest))[..k]))
         == Shapes(stack) + OpenAfter(rest, stack != [], open, k - |before|)
    decreases rest, 3
  {
    CutAfter(stack, before, Events(rest), k);
    NestCut(stack, rest, open, k - |before|);
  }

  lemma {:induction false} CutForward(stack: seq<Block>, n: Nest, open: int, k: nat)
    requires n.Forward? && Ready(stack, open) && WellFormed(n, stack != [], open) && 0 < k <= |Events(n)|
    ensures Shapes(ApplyAll(stack, Events(n)[..k])) == Shapes(stack) + OpenAfter(n, stack != [], open, k)
    decreases n, 0
  {
    var own := [n.head] + n.gap + [Tail];
    if k < |own| {
      TakeConcat(own, Events(n.rest), k);
      CutHead(stack, n.head, n.gap, Tail, open, k);
    } else {
      ForwardRuns(stack, n.head, n.gap, open);
      CutInRest(stack, own, n.rest, open, k);
    }
  }

  lemma {:induction false} CutStatement(stack: seq<Block>, n: Nest, open: int, k: nat)
    requires n.Statement? && Ready(stack, open) && WellFormed(n, stack != [], open) && k <= |Events(n)|
    ensures Shapes(ApplyAll(stack, Events(n)[..k])) == Shapes(stack) + OpenAfter(n, stack != [], open, k)
    decreases n, 0
  {
    var events, d := n.events, Delta(n.events);
    StatementRuns(stack, events, open, if k <= |events| then k else 0);
    TakeConcat(events, Events(n.rest), k);
    if k > |events| {
      ApplyConcat(stack, events, Events(n.rest)[..k - |events|]);
      NestCut(AddOpen(stack, d), n.rest, open + d, k - |events|);
      ShapesIgnoreOpen(stack, d);
    }
  }
}
