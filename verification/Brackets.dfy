/** The reference for bracket matching: a grammar of text balanced in
    `()`, `[]` and `{}`, and the plain forward and backward stack matchers,
    each proved to find exactly the group the grammar describes. */
module Brackets {
  import opened Text

  predicate IsOpener(c: char) {
    c == '(' || c == '[' || c == '{'
  }

  predicate IsCloser(c: char) {
    c == ')' || c == ']' || c == '}'
  }

  predicate IsBracket(c: char) {
    IsOpener(c) || IsCloser(c)
  }

  predicate Matches(open: char, close: char) {
    || (open == '(' && close == ')')
    || (open == '[' && close == ']')
    || (open == '{' && close == '}')
  }

  /** `text[i..j]` is derived by  S -> empty | other S | open S close S. */
  ghost predicate Balanced(text: string, i: nat, j: nat)
    requires i <= j <= |text|
    decreases j - i
  {
    || i == j
    || (!IsBracket(text[i]) && Balanced(text, i + 1, j))
    || (IsOpener(text[i])
        && exists k :: i < k < j && Matches(text[i], text[k])
                       && Balanced(text, i + 1, k) && Balanced(text, k + 1, j))
  }

  /** The opener at `p` and the closer at `q` enclose balanced text. */
  ghost predicate Group(text: string, p: nat, q: nat)
  {
    p < q < |text| && Matches(text[p], text[q]) && Balanced(text, p + 1, q)
  }

  ghost predicate GroupStartsAt(text: string, p: nat) {
    exists q: nat :: Group(text, p, q)
  }

  ghost predicate GroupEndsAt(text: string, q: nat) {
    exists p: nat :: Group(text, p, q)
  }

  lemma {:induction false} BalancedConcat(text: string, i: nat, j: nat, k: nat)
    requires i <= j <= k <= |text|
    requires Balanced(text, i, j) && Balanced(text, j, k)
    ensures Balanced(text, i, k)
    decreases j - i
  {
    if i < j {
      if !IsBracket(text[i]) {
        BalancedConcat(text, i + 1, j, k);
      } else {
        var m :| i < m < j && Matches(text[i], text[m])
                 && Balanced(text, i + 1, m) && Balanced(text, m + 1, j);
        BalancedConcat(text, m + 1, j, k);
      }
    }
  }

  /** Pushes openers and pops them on their closers; answers the position just
      past the closer that empties the stack. */
  function MatchForward(text: string, i: nat, stack: string): (r: Option<nat>)
    requires i <= |text|
    decreases |text| - i
  {
    if i == |text| then None
    else if IsOpener(text[i]) then MatchForward(text, i + 1, stack + [text[i]])
    else if IsCloser(text[i]) then
      if stack == [] || !Matches(stack[|stack| - 1], text[i]) then None
      else if |stack| == 1 then Some(i + 1)
      else MatchForward(text, i + 1, stack[..|stack| - 1])
    else MatchForward(text, i + 1, stack)
  }

  /** The mirror image, from `i - 1` down; answers the position of the opener. */
  function MatchBackward(text: string, i: nat, stack: string): (r: Option<nat>)
    requires i <= |text|
  {
    if i == 0 then None
    else if IsCloser(text[i - 1]) then MatchBackward(text, i - 1, stack + [text[i - 1]])
    else if IsOpener(text[i - 1]) then
      if stack == [] || !Matches(text[i - 1], stack[|stack| - 1]) then None
      else if |stack| == 1 then Some(i - 1)
      else MatchBackward(text, i - 1, stack[..|stack| - 1])
    else MatchBackward(text, i - 1, stack)
  }

  // ---------- forward ----------

  lemma {:induction false} ForwardSkipsBalanced(text: string, i: nat, j: nat, stack: string)
    requires i <= j <= |text| && stack != []
    requires Balanced(text, i, j)
    ensures MatchForward(text, i, stack) == MatchForward(text, j, stack)
    decreases j - i
  {
    if i < j {
      if !IsBracket(text[i]) {
        ForwardSkipsBalanced(text, i + 1, j, stack);
      } else {
        var k :| i < k < j && Matches(text[i], text[k])
                 && Balanced(text, i + 1, k) && Balanced(text, k + 1, j);
        var pushed := stack + [text[i]];
        ForwardSkipsBalanced(text, i + 1, k, pushed);
        assert pushed[..|pushed| - 1] == stack;
        ForwardSkipsBalanced(text, k + 1, j, stack);
      }
    }
  }

  /** A forward match closes the innermost opener first: `k` is where. */
  lemma {:induction false} ForwardClosesTop(text: string, i: nat, stack: string) returns (k: nat)
    requires i <= |text| && stack != []
    requires MatchForward(text, i, stack).Some?
    ensures i <= k < |text| && Balanced(text, i, k) && Matches(stack[|stack| - 1], text[k])
    ensures MatchForward(text, i, stack)
         == if |stack| == 1 then Some(k + 1) else MatchForward(text, k + 1, stack[..|stack| - 1])
    decreases |text| - i
  {
    if IsOpener(text[i]) {
      var pushed := stack + [text[i]];
      var m := ForwardClosesTop(text, i + 1, pushed);
      assert pushed[..|pushed| - 1] == stack;
      k := ForwardClosesTop(text, m + 1, stack);
    } else if IsCloser(text[i]) {
      k := i;
    } else {
      k := ForwardClosesTop(text, i + 1, stack);
    }
  }

  /** The forward matcher finds the group that starts at `p`, and fails exactly
      when there is none. */
  lemma ForwardFindsGroup(text: string, p: nat)
    requires p < |text| && IsOpener(text[p])
    ensures forall q: nat {:trigger Group(text, p, q)} ::
              Group(text, p, q) ==> MatchForward(text, p + 1, [text[p]]) == Some(q + 1)
    ensures MatchForward(text, p + 1, [text[p]]).Some? ==>
              var e := MatchForward(text, p + 1, [text[p]]).value;
              p + 1 < e && Group(text, p, e - 1)
  {
    forall q: nat | Group(text, p, q)
      ensures MatchForward(text, p + 1, [text[p]]) == Some(q + 1)
    {
      ForwardSkipsBalanced(text, p + 1, q, [text[p]]);
    }
    if MatchForward(text, p + 1, [text[p]]).Some? {
      var k := ForwardClosesTop(text, p + 1, [text[p]]);
    }
  }

  // ---------- backward ----------

  lemma {:induction false} BackwardSkipsBalanced(text: string, i: nat, j: nat, stack: string)
    requires i <= j <= |text| && stack != []
    requires Balanced(text, i, j)
    ensures MatchBackward(text, j, stack) == MatchBackward(text, i, stack)
    decreases j - i
  {
    if i < j {
      if !IsBracket(text[i]) {
        BackwardSkipsBalanced(text, i + 1, j, stack);
      } else {
        var k :| i < k < j && Matches(text[i], text[k])
                 && Balanced(text, i + 1, k) && Balanced(text, k + 1, j);
        var pushed := stack + [text[k]];
        BackwardSkipsBalanced(text, k + 1, j, stack);
        BackwardSkipsBalanced(text, i + 1, k, pushed);
        assert pushed[..|pushed| - 1] == stack;
      }
    }
  }

  lemma {:induction false} BackwardOpensTop(text: string, j: nat, stack: string) returns (k: nat)
    requires j <= |text| && stack != []
    requires MatchBackward(text, j, stack).Some?
    ensures k < j && Balanced(text, k + 1, j) && Matches(text[k], stack[|stack| - 1])
    ensures MatchBackward(text, j, stack)
         == if |stack| == 1 then Some(k) else MatchBackward(text, k, stack[..|stack| - 1])
    decreases j
  {
    var c := text[j - 1];
    if IsCloser(c) {
      var pushed := stack + [c];
      var m := BackwardOpensTop(text, j - 1, pushed);
      assert pushed[..|pushed| - 1] == stack;
      k := BackwardOpensTop(text, m, stack);
      assert Balanced(text, j, j);
      assert Balanced(text, m, j);
      BalancedConcat(text, k + 1, m, j);
    } else if IsOpener(c) {
      k := j - 1;
    } else {
      k := BackwardOpensTop(text, j - 1, stack);
      assert Balanced(text, j, j);
      BalancedConcat(text, k + 1, j - 1, j);
    }
  }

  /** The backward matcher finds the group that ends at `q`, and fails exactly
      when there is none. */
  lemma BackwardFindsGroup(text: string, q: nat)
    requires q < |text| && IsCloser(text[q])
    ensures forall p: nat {:trigger Group(text, p, q)} ::
              Group(text, p, q) ==> MatchBackward(text, q, [text[q]]) == Some(p)
    ensures MatchBackward(text, q, [text[q]]).Some? ==>
              Group(text, MatchBackward(text, q, [text[q]]).value, q)
  {
    forall p: nat | Group(text, p, q)
      ensures MatchBackward(text, q, [text[q]]) == Some(p)
    {
      BackwardSkipsBalanced(text, p + 1, q, [text[q]]);
    }
    if MatchBackward(text, q, [text[q]]).Some? {
      var k := BackwardOpensTop(text, q, [text[q]]);
    }
  }
}
