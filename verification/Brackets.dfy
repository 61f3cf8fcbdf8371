/** What it means for a bracket to close another, and the plain stack machines that find it. */
module Brackets {
  import opened Sequences

  predicate IsOpener(c: char) {
    c == '(' || c == '[' || c == '{'
  }

  predicate IsCloser(c: char) {
    c == ')' || c == ']' || c == '}'
  }

  predicate IsBracket(c: char) {
    IsOpener(c) || IsCloser(c)
  }

  predicate Pair(o: char, c: char) {
    (o == '(' && c == ')') || (o == '[' && c == ']') || (o == '{' && c == '}')
  }

  /** Brackets nest properly; every other character is free. */
  ghost predicate Balanced(w: string)
    decreases |w|
  {
    w == ""
    || (!IsBracket(w[0]) && Balanced(w[1..]))
    || exists k :: 0 < k < |w| && Pair(w[0], w[k]) && Balanced(w[1..k]) && Balanced(w[k + 1..])
  }

  /** The bracket at e closes the one at p. */
  ghost predicate Closes(text: string, p: nat, e: nat) {
    p < e < |text| && Pair(text[p], text[e]) && Balanced(text[p + 1..e])
  }

  datatype Step = More(stack: seq<char>) | Found | Mismatch

  /** One character of plain matching, left to right. */
  function Forward(c: char, stack: seq<char>): Step {
    if IsOpener(c) then More(stack + [c])
    else if !IsCloser(c) then More(stack)
    else if stack == [] || !Pair(stack[|stack| - 1], c) then Mismatch
    else if |stack| == 1 then Found
    else More(stack[..|stack| - 1])
  }

  /** One character of plain matching, right to left. */
  function Backward(c: char, stack: seq<char>): Step {
    if IsCloser(c) then More(stack + [c])
    else if !IsOpener(c) then More(stack)
    else if stack == [] || !Pair(c, stack[|stack| - 1]) then Mismatch
    else if |stack| == 1 then Found
    else More(stack[..|stack| - 1])
  }

  datatype Outcome = At(pos: nat) | Failed | Open(stack: seq<char>)

  /** Plain matching from position i to the right. */
  function ScanForward(text: string, i: nat, stack: seq<char>): Outcome
    requires i <= |text|
    decreases |text| - i
  {
    if i == |text| then Open(stack)
    else match Forward(text[i], stack)
         case More(s) => ScanForward(text, i + 1, s)
         case Found => At(i)
         case Mismatch => Failed
  }

  /** Plain matching over text[..i] from its end to the left. */
  function ScanBackward(text: string, i: nat, stack: seq<char>): Outcome
    requires i <= |text|
  {
    if i == 0 then Open(stack)
    else match Backward(text[i - 1], stack)
         case More(s) => ScanBackward(text, i - 1, s)
         case Found => At(i - 1)
         case Mismatch => Failed
  }

  lemma PartnerIn(w: string) returns (d: nat)
    requires Balanced(w) && w != "" && IsBracket(w[0])
    ensures 0 < d < |w| && Pair(w[0], w[d]) && Balanced(w[1..d]) && Balanced(w[d + 1..])
  {
    d :| 0 < d < |w| && Pair(w[0], w[d]) && Balanced(w[1..d]) && Balanced(w[d + 1..]);
  }

  /** The first bracket of a balanced stretch has its partner in it. */
  lemma Partner(text: string, i: nat, j: nat) returns (k: nat)
    requires i < j <= |text| && Balanced(text[i..j]) && IsBracket(text[i])
    ensures i < k < j && Pair(text[i], text[k]) && Balanced(text[i + 1..k]) && Balanced(text[k + 1..j])
  {
    hide Balanced;
    var d := PartnerIn(text[i..j]);
    k := i + d;
    Slice(text, i, j, 1, d);
    Slice(text, i, j, d + 1, j - i);
  }

  lemma FreeFirst(text: string, i: nat, j: nat)
    requires i < j <= |text| && !IsBracket(text[i])
    ensures Balanced(text[i..j]) <==> Balanced(text[i + 1..j])
  {
    Slice(text, i, j, 1, j - i);
  }

  lemma BalancedPair(text: string, i: nat, k: nat, j: nat)
    requires i < k < j <= |text| && Pair(text[i], text[k])
    requires Balanced(text[i + 1..k]) && Balanced(text[k + 1..j])
    ensures Balanced(text[i..j])
  {
    var w, d := text[i..j], k - i;
    Slice(text, i, j, 1, d);
    Slice(text, i, j, d + 1, j - i);
    assert 0 < d < |w| && Pair(w[0], w[d]);
  }

  /** A balanced stretch leaves the stack as it was. */
  lemma {:induction false} ForwardSkips(text: string, i: nat, j: nat, stack: seq<char>)
    requires i <= j <= |text| && Balanced(text[i..j]) && stack != []
    ensures ScanForward(text, i, stack) == ScanForward(text, j, stack)
    decreases j - i
  {
    hide Balanced;
    if i == j {
    } else {
      if !IsBracket(text[i]) {
        FreeFirst(text, i, j);
        ForwardSkips(text, i + 1, j, stack);
      } else {
        var k := Partner(text, i, j);
        ForwardSkips(text, i + 1, k, stack + [text[i]]);
        assert (stack + [text[i]])[..|stack|] == stack;
        ForwardSkips(text, k + 1, j, stack);
      }
    }
  }

  lemma {:induction false} BackwardSkips(text: string, i: nat, j: nat, stack: seq<char>)
    requires i <= j <= |text| && Balanced(text[i..j]) && stack != []
    ensures ScanBackward(text, j, stack) == ScanBackward(text, i, stack)
    decreases j - i
  {
    hide Balanced;
    if i == j {
    } else {
      if !IsBracket(text[i]) {
        FreeFirst(text, i, j);
        BackwardSkips(text, i + 1, j, stack);
      } else {
        var k := Partner(text, i, j);
        BackwardSkips(text, k + 1, j, stack);
        BackwardSkips(text, i + 1, k, stack + [text[k]]);
        assert (stack + [text[k]])[..|stack|] == stack;
      }
    }
  }

  lemma {:induction false} BalancedConcat(text: string, i: nat, m: nat, j: nat)
    requires i <= m <= j <= |text| && Balanced(text[i..m]) && Balanced(text[m..j])
    ensures Balanced(text[i..j])
    decreases m - i
  {
    hide Balanced;
    if i == m {
    } else {
      if !IsBracket(text[i]) {
        FreeFirst(text, i, m);
        BalancedConcat(text, i + 1, m, j);
        FreeFirst(text, i, j);
      } else {
        var k := Partner(text, i, m);
        BalancedConcat(text, k + 1, m, j);
        BalancedPair(text, i, k, j);
      }
    }
  }

  lemma Nothing(text: string, i: nat)
    requires i <= |text|
    ensures Balanced(text[i..i])
  {
  }

  /** A successful scan first crosses a balanced stretch to the bracket that closes the top of the stack. */
  lemma {:induction false} FirstPop(text: string, i: nat, stack: seq<char>) returns (j: nat)
    requires i <= |text| && stack != [] && ScanForward(text, i, stack).At?
    ensures i <= j < |text| && Balanced(text[i..j]) && Pair(stack[|stack| - 1], text[j])
    ensures var r := ScanForward(text, i, stack);
            if |stack| == 1 then r == At(j) else r == ScanForward(text, j + 1, stack[..|stack| - 1])
    decreases |text| - i
  {
    hide Balanced;
    if IsOpener(text[i]) {
      assert ScanForward(text, i, stack) == ScanForward(text, i + 1, stack + [text[i]]);
      hide ScanForward, Forward;
      var k := FirstPop(text, i + 1, stack + [text[i]]);
      assert (stack + [text[i]])[..|stack|] == stack;
      j := FirstPop(text, k + 1, stack);
      BalancedPair(text, i, k, j);
    } else if IsCloser(text[i]) {
      j := i;
      Nothing(text, i);
    } else {
      j := FirstPop(text, i + 1, stack);
      FreeFirst(text, i, j);
    }
  }

  lemma PairBehind(text: string, i: nat, k: nat, j: nat)
    requires i <= k < j - 1 < |text| && Balanced(text[i..k])
    requires Pair(text[k], text[j - 1]) && Balanced(text[k + 1..j - 1])
    ensures Balanced(text[i..j])
  {
    hide Balanced, Pair;
    Nothing(text, j);
    BalancedPair(text, k, j - 1, j);
    BalancedConcat(text, i, k, j);
  }

  lemma FreeBehind(text: string, i: nat, j: nat)
    requires i < j <= |text| && Balanced(text[i..j - 1]) && !IsBracket(text[j - 1])
    ensures Balanced(text[i..j])
  {
    hide Balanced, IsBracket;
    Nothing(text, j);
    FreeFirst(text, j - 1, j);
    BalancedConcat(text, i, j - 1, j);
  }

  /** One turn to the left. */
  lemma LastTurn(text: string, i: nat, stack: seq<char>)
    requires 0 < i <= |text| && stack != [] && ScanBackward(text, i, stack).At?
    ensures var c, r := text[i - 1], ScanBackward(text, i, stack);
            if IsCloser(c) then r == ScanBackward(text, i - 1, stack + [c])
            else if !IsOpener(c) then r == ScanBackward(text, i - 1, stack) && !IsBracket(c)
            else Pair(c, stack[|stack| - 1])
                 && (if |stack| == 1 then r == At(i - 1) else r == ScanBackward(text, i - 1, stack[..|stack| - 1]))
  {
    hide IsCloser, IsOpener, Pair;
  }

  /** The scan of text[..i] first crosses a balanced stretch to the bracket at j, which opens the top of the stack. */
  ghost predicate Popped(text: string, i: nat, stack: seq<char>, j: nat)
    requires i <= |text| && stack != []
  {
    && j < i && Balanced(text[j + 1..i]) && Pair(text[j], stack[|stack| - 1])
    && var r := ScanBackward(text, i, stack);
       if |stack| == 1 then r == At(j) else r == ScanBackward(text, j, stack[..|stack| - 1])
  }

  lemma CloserPopped(text: string, i: nat, stack: seq<char>, k: nat)
    requires 0 < i <= |text| && stack != [] && ScanBackward(text, i, stack).At? && IsCloser(text[i - 1])
    requires Popped(text, i - 1, stack + [text[i - 1]], k)
    ensures k < i - 1 && ScanBackward(text, i, stack) == ScanBackward(text, k, stack)
    ensures Pair(text[k], text[i - 1]) && Balanced(text[k + 1..i - 1])
  {
    LastTurn(text, i, stack);
    hide Balanced, ScanBackward, Pair, IsCloser, IsOpener, IsBracket;
    var pushed := stack + [text[i - 1]];
    assert pushed[..|pushed| - 1] == stack;
  }

  lemma PoppedBehind(text: string, i: nat, stack: seq<char>, k: nat, j: nat)
    requires k < i - 1 < |text| && stack != [] && ScanBackward(text, i, stack) == ScanBackward(text, k, stack)
    requires Pair(text[k], text[i - 1]) && Balanced(text[k + 1..i - 1]) && Popped(text, k, stack, j)
    ensures Popped(text, i, stack, j)
  {
    hide Balanced, ScanBackward, Pair;
    PairBehind(text, j + 1, k, i);
  }

  lemma OpenerPopped(text: string, i: nat, stack: seq<char>)
    requires 0 < i <= |text| && stack != [] && ScanBackward(text, i, stack).At? && IsOpener(text[i - 1])
    ensures Popped(text, i, stack, i - 1)
  {
    Nothing(text, i);
  }

  lemma FreePopped(text: string, i: nat, stack: seq<char>, j: nat)
    requires 0 < i <= |text| && stack != [] && !IsBracket(text[i - 1]) && Popped(text, i - 1, stack, j)
    requires ScanBackward(text, i, stack) == ScanBackward(text, i - 1, stack)
    ensures Popped(text, i, stack, j)
  {
    hide Balanced, ScanBackward, Pair, IsBracket;
    FreeBehind(text, j + 1, i);
  }

  lemma {:induction false} LastPop(text: string, i: nat, stack: seq<char>) returns (j: nat)
    requires i <= |text| && stack != [] && ScanBackward(text, i, stack).At?
    ensures Popped(text, i, stack, j)
    decreases i
  {
    assert i > 0;
    LastTurn(text, i, stack);
    hide Balanced, ScanBackward, Pair, IsCloser, IsOpener, IsBracket, Popped;
    if IsCloser(text[i - 1]) {
      var k := LastPop(text, i - 1, stack + [text[i - 1]]);
      CloserPopped(text, i, stack, k);
      j := LastPop(text, k, stack);
      PoppedBehind(text, i, stack, k, j);
    } else if IsOpener(text[i - 1]) {
      j := i - 1;
      OpenerPopped(text, i, stack);
    } else {
      j := LastPop(text, i - 1, stack);
      FreePopped(text, i, stack, j);
    }
  }

  /** The forward machine started on an opener finds e exactly when e closes the opener. */
  lemma ForwardFindsCloser(text: string, p: nat, e: nat)
    requires p < |text| && IsOpener(text[p])
    ensures ScanForward(text, p, []) == At(e) <==> Closes(text, p, e)
  {
    hide Balanced;
    assert [] + [text[p]] == [text[p]];
    assert ScanForward(text, p, []) == ScanForward(text, p + 1, [text[p]]);
    if ScanForward(text, p, []).At? {
      var j := FirstPop(text, p + 1, [text[p]]);
    }
    if Closes(text, p, e) {
      ForwardSkips(text, p + 1, e, [text[p]]);
    }
  }

  /** The backward machine started on a closer finds p exactly when the closer closes p. */
  lemma BackwardFindsOpener(text: string, p: nat, e: nat)
    requires e < |text| && IsCloser(text[e])
    ensures ScanBackward(text, e + 1, []) == At(p) <==> Closes(text, p, e)
  {
    hide Balanced;
    assert [] + [text[e]] == [text[e]];
    assert ScanBackward(text, e + 1, []) == ScanBackward(text, e, [text[e]]);
    if ScanBackward(text, e + 1, []).At? {
      var j := LastPop(text, e, [text[e]]);
    }
    if Closes(text, p, e) {
      BackwardSkips(text, p + 1, e, [text[e]]);
    }
  }
}
