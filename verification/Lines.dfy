/** A file seen as one text, and the stacks of the expression matchers. */
module Lines {

  /** What scanning one line from a given stack ends with. */
  datatype Scan = Found(pos: nat) | Dead | Open(stack: string)

  /** A position in a file, or none. */
  datatype Place = At(line: nat, pos: nat) | NotFound

  // ---------- the file as one text ----------

  /** The first `n` lines written one after the other. */
  function Joined(lines: seq<string>, n: nat): string
    requires n <= |lines|
  {
    if n == 0 then "" else Joined(lines, n - 1) + lines[n - 1]
  }

  function Whole(lines: seq<string>): string {
    Joined(lines, |lines|)
  }

  /** Where line `l` starts in the whole text. */
  function Offset(lines: seq<string>, l: nat): nat
    requires l <= |lines|
  {
    if l == 0 then 0 else Offset(lines, l - 1) + |lines[l - 1]|
  }

  lemma {:induction false} JoinedIsPrefix(lines: seq<string>, m: nat, n: nat)
    requires m <= n <= |lines|
    ensures Joined(lines, m) <= Joined(lines, n)
    decreases n - m
  {
    if m < n {
      JoinedIsPrefix(lines, m, n - 1);
    }
  }

  lemma {:induction false} JoinedLength(lines: seq<string>, n: nat)
    requires n <= |lines|
    ensures |Joined(lines, n)| == Offset(lines, n)
  {
    if n > 0 {
      JoinedLength(lines, n - 1);
    }
  }

  lemma LineInWhole(lines: seq<string>, text: string, l: nat)
    requires l < |lines| && text == Whole(lines)
    ensures Offset(lines, l) + |lines[l]| <= |text|
    ensures text[Offset(lines, l)..Offset(lines, l) + |lines[l]|] == lines[l]
    ensures Offset(lines, l + 1) == Offset(lines, l) + |lines[l]|
    ensures l + 1 == |lines| ==> Offset(lines, l + 1) == |text|
  {
    JoinedIsPrefix(lines, l + 1, |lines|);
    JoinedLength(lines, l);
    JoinedLength(lines, l + 1);
    assert Joined(lines, l + 1) == Joined(lines, l) + lines[l];
  }

  lemma {:induction false} OffsetGrows(lines: seq<string>, m: nat, n: nat)
    requires m < n <= |lines|
    ensures Offset(lines, m) + |lines[m]| <= Offset(lines, n)
    decreases n - m
  {
    if m + 1 < n {
      OffsetGrows(lines, m, n - 1);
    }
  }

  /** A character position is the offset of one line and column only. */
  lemma OffsetInjective(lines: seq<string>, l: nat, p: nat, m: nat, q: nat)
    requires l < |lines| && p < |lines[l]| && m < |lines| && q < |lines[m]|
    requires Offset(lines, l) + p == Offset(lines, m) + q
    ensures l == m && p == q
  {
    if l < m {
      OffsetGrows(lines, l, m);
    } else if m < l {
      OffsetGrows(lines, m, l);
    }
  }

  // ---------- stacks with tentative brackets ----------

  function Pop(stack: string): string
    requires stack != []
  {
    stack[..|stack| - 1]
  }

  function Top(stack: string): char
    requires stack != []
  {
    stack[|stack| - 1]
  }

  /** Pops every `t` off the top. */
  function DropTentative(stack: string, t: char): string {
    if stack != [] && Top(stack) == t then DropTentative(Pop(stack), t) else stack
  }

  method PopTentative(stack: string, t: char) returns (st: string)
    ensures st == DropTentative(stack, t)
  {
    st := stack;
    while st != [] && Top(st) == t
      invariant DropTentative(st, t) == DropTentative(stack, t)
      decreases |st|
    {
      st := Pop(st);
    }
  }

  function Kept(stack: string, t: char, n: nat): string
    requires n <= |stack|
  {
    if n == 0 then []
    else if stack[n - 1] == t then Kept(stack, t, n - 1)
    else Kept(stack, t, n - 1) + [stack[n - 1]]
  }

  /** The stack without any `t`. */
  function Without(stack: string, t: char): string {
    Kept(stack, t, |stack|)
  }

  lemma {:induction false} KeptOfPrefix(stack: string, longer: string, t: char, n: nat)
    requires stack <= longer && n <= |stack|
    ensures Kept(stack, t, n) == Kept(longer, t, n)
  {
    if n > 0 {
      KeptOfPrefix(stack, longer, t, n - 1);
    }
  }

  lemma WithoutPush(stack: string, t: char, c: char)
    ensures Without(stack + [c], t)
         == if c == t then Without(stack, t) else Without(stack, t) + [c]
  {
    KeptOfPrefix(stack, stack + [c], t, |stack|);
  }

  lemma WithoutPop(stack: string, t: char)
    requires stack != []
    ensures Without(stack, t)
         == if Top(stack) == t then Without(Pop(stack), t) else Without(Pop(stack), t) + [Top(stack)]
  {
    KeptOfPrefix(Pop(stack), stack, t, |stack| - 1);
  }

  lemma WithoutOne(c: char, t: char)
    requires c != t
    ensures Without([c], t) == [c]
  {
    assert Kept([c], t, 0) + [c] == [c];
  }

  lemma {:induction false} DropKeepsRest(stack: string, t: char)
    requires stack != []
    ensures var st := DropTentative(stack, t);
            && st <= stack
            && (st != [] ==> Top(st) != t)
            && (stack[0] != t ==> st != [])
            && Without(st, t) == Without(stack, t)
  {
    WithoutPop(stack, t);
    if Top(stack) == t && |stack| > 1 {
      DropKeepsRest(Pop(stack), t);
    }
  }

  lemma {:induction false} BottomSurvives(stack: string, t: char)
    requires stack != [] && stack[0] != t
    ensures Without(stack, t) != []
  {
    WithoutPop(stack, t);
    if |stack| > 1 {
      BottomSurvives(Pop(stack), t);
    }
  }

  lemma {:induction false} DropAbove(base: string, stack: string, t: char)
    requires stack != [] && stack[0] != t
    ensures DropTentative(base + stack, t) == base + DropTentative(stack, t)
    decreases |stack|
  {
    assert Top(base + stack) == Top(stack);
    if Top(stack) == t {
      assert Pop(base + stack) == base + Pop(stack);
      DropAbove(base, Pop(stack), t);
    }
  }

  lemma AboveBase(base: string, stack: string)
    requires stack != []
    ensures Top(base + stack) == Top(stack) && Pop(base + stack) == base + Pop(stack)
    ensures |base + stack| == 1 <==> base == [] && Pop(stack) == []
  {
  }

  /** The bracket that is met once tentative ones are popped, and what is under it. */
  lemma BracketMet(base: string, stack: string, t: char) returns (top: char, below: string)
    requires stack != [] && stack[0] != t
    ensures top != t && DropTentative(base + stack, t) == base + (below + [top])
    ensures Without(stack, t) == Without(below, t) + [top]
    ensures below != [] ==> below[0] != t && Without(below, t) != []
  {
    DropKeepsRest(stack, t);
    DropAbove(base, stack, t);
    var st := DropTentative(stack, t);
    WithoutPop(st, t);
    top, below := Top(st), Pop(st);
    assert st == below + [top];
    if below != [] {
      BottomSurvives(below, t);
    }
  }
}
