/** Matching of angle brackets among other brackets: what it means, and the stack machines that find it. Texts are
    marked: only the characters that count as angle brackets are '<' and '>', and the second half of a "<<" is '^'. */
module Angles {
  import opened Brackets
  import opened Sequences

  const SHIFT: char := '^'

  /** Pops pending angle brackets. */
  function PopAngles(stack: seq<char>, angle: char): (s: seq<char>)
    ensures s <= stack
  {
    if stack != [] && stack[|stack| - 1] == angle then PopAngles(stack[..|stack| - 1], angle) else stack
  }

  function Pop(stack: seq<char>): Step
    requires stack != []
  {
    if |stack| == 1 then Found else More(stack[..|stack| - 1])
  }

  function OnTop(stack: seq<char>, c: char): bool {
    stack != [] && stack[|stack| - 1] == c
  }

  /** One marked character, left to right. */
  function AngleForward(c: char, stack: seq<char>): Step {
    if IsOpener(c) || c == '<' then More(stack + [c])
    else if c == SHIFT then
      if !OnTop(stack, '<') then More(stack)
      else if |stack| == 1 then Mismatch
      else More(stack[..|stack| - 1])
    else if IsCloser(c) then
      var s := PopAngles(stack, '<');
      if s != [] && Pair(s[|s| - 1], c) then Pop(s) else Mismatch
    else if c == '>' then
      if OnTop(stack, '<') then Pop(stack) else More(stack)
    else if c == ';' then
      var s := PopAngles(stack, '<');
      if s == [] then Mismatch else More(s)
    else More(stack)
  }

  /** One marked character, right to left. */
  function AngleBackward(c: char, stack: seq<char>): Step {
    if IsCloser(c) || c == '>' then More(stack + [c])
    else if c == '<' then
      if OnTop(stack, '>') then Pop(stack) else More(stack)
    else if IsOpener(c) then
      var s := PopAngles(stack, '>');
      if s != [] && Pair(c, s[|s| - 1]) then Pop(s) else Mismatch
    else if c == ';' then
      var s := PopAngles(stack, '>');
      if s == [] then Mismatch else More(s)
    else More(stack)
  }

  /** The machine from position i to the right. */
  function AnglesFrom(w: string, i: nat, stack: seq<char>): Outcome
    requires i <= |w|
    decreases |w| - i
  {
    if i == |w| then Open(stack)
    else match AngleForward(w[i], stack)
         case More(s) => AnglesFrom(w, i + 1, s)
         case Found => At(i)
         case Mismatch => Failed
  }

  /** The machine over w[..i] to the left. */
  function AnglesBefore(w: string, i: nat, stack: seq<char>): Outcome
    requires i <= |w|
  {
    if i == 0 then Open(stack)
    else match AngleBackward(w[i - 1], stack)
         case More(s) => AnglesBefore(w, i - 1, s)
         case Found => At(i - 1)
         case Mismatch => Failed
  }

  predicate Neutral(c: char) {
    !IsBracket(c) && c != '<' && c != '>' && c != SHIFT && c != ';'
  }

  /** An argument list from i to j: neutral characters, bracketed stretches in which angle brackets do not count, and
      angle brackets that nest. A shift takes its own first half back. */
  ghost predicate Nested(w: string, i: nat, j: nat)
    requires i <= j <= |w|
    decreases j - i
  {
    i == j
    || (Neutral(w[i]) && Nested(w, i + 1, j))
    || (exists k :: i < k < j && Pair(w[i], w[k]) && Balanced(w[i + 1..k]) && Nested(w, k + 1, j))
    || (w[i] == '<'
        && exists k :: i < k < j && (w[k] == '>' || w[k] == SHIFT) && Nested(w, i + 1, k) && Nested(w, k + 1, j))
  }

  /** The angle bracket at e closes the one at p. */
  ghost predicate AngleCloses(w: string, p: nat, e: nat) {
    p < e < |w| && w[p] == '<' && w[e] == '>' && Nested(w, p + 1, e)
  }

  // The parts of Nested.

  lemma NestedNeutral(w: string, i: nat, j: nat)
    requires i < j <= |w| && Neutral(w[i]) && Nested(w, i + 1, j)
    ensures Nested(w, i, j)
  {
  }

  lemma NestedGroup(w: string, i: nat, k: nat, j: nat)
    requires i < k < j <= |w| && Pair(w[i], w[k]) && Balanced(w[i + 1..k]) && Nested(w, k + 1, j)
    ensures Nested(w, i, j)
  {
    hide Balanced;
  }

  lemma NestedAngle(w: string, i: nat, k: nat, j: nat)
    requires i < k < j <= |w| && w[i] == '<' && (w[k] == '>' || w[k] == SHIFT)
    requires Nested(w, i + 1, k) && Nested(w, k + 1, j)
    ensures Nested(w, i, j)
  {
  }

  datatype Part = Empty | Single | Group(k: nat) | Angle(k: nat)

  lemma FirstPart(w: string, i: nat, j: nat) returns (part: Part)
    requires i <= j <= |w| && Nested(w, i, j)
    ensures match part
            case Empty => i == j
            case Single => i < j && Neutral(w[i]) && Nested(w, i + 1, j)
            case Group(k) => i < k < j && Pair(w[i], w[k]) && Balanced(w[i + 1..k]) && Nested(w, k + 1, j)
            case Angle(k) =>
              i < k < j && w[i] == '<' && (w[k] == '>' || w[k] == SHIFT) && Nested(w, i + 1, k) && Nested(w, k + 1, j)
  {
    hide Balanced, Neutral, Pair;
    if i == j {
      part := Empty;
    } else if Neutral(w[i]) && Nested(w, i + 1, j) {
      part := Single;
    } else if k :| i < k < j && Pair(w[i], w[k]) && Balanced(w[i + 1..k]) && Nested(w, k + 1, j) {
      part := Group(k);
    } else {
      var k :| i < k < j && (w[k] == '>' || w[k] == SHIFT) && Nested(w, i + 1, k) && Nested(w, k + 1, j);
      part := Angle(k);
    }
  }

  lemma {:induction false} NestedConcat(w: string, i: nat, m: nat, j: nat)
    requires i <= m <= j <= |w| && Nested(w, i, m) && Nested(w, m, j)
    ensures Nested(w, i, j)
    decreases m - i
  {
    hide Nested, Balanced, Neutral, Pair;
    var part := FirstPart(w, i, m);
    match part
    case Empty =>
    case Single =>
      NestedConcat(w, i + 1, m, j);
      NestedNeutral(w, i, j);
    case Group(k) =>
      NestedConcat(w, k + 1, m, j);
      NestedGroup(w, i, k, j);
    case Angle(k) =>
      NestedConcat(w, k + 1, m, j);
      NestedAngle(w, i, k, j);
  }

  lemma NestedNothing(w: string, i: nat)
    requires i <= |w|
    ensures Nested(w, i, i)
  {
  }

  // Stacks.

  predicate AllAre(s: seq<char>, angle: char) {
    forall i :: 0 <= i < |s| ==> s[i] == angle
  }

  /** Pending angle brackets on a real bracket. */
  lemma {:induction false} PopPending(base: seq<char>, pending: seq<char>, angle: char)
    requires AllAre(pending, angle) && !OnTop(base, angle)
    ensures PopAngles(base + pending, angle) == base
    decreases |pending|
  {
    var stack := base + pending;
    if pending == [] {
      assert stack == base;
    } else {
      assert stack[..|stack| - 1] == base + pending[..|pending| - 1];
      PopPending(base, pending[..|pending| - 1], angle);
    }
  }

  lemma PopAll(pending: seq<char>, angle: char)
    requires AllAre(pending, angle)
    ensures PopAngles(pending, angle) == []
  {
    PopPending([], pending, angle);
    assert [] + pending == pending;
  }

  // Left to right.

  /** Inside a bracketed stretch a character that is no bracket only changes what is pending. */
  lemma FreeInside(c: char, base: seq<char>, pending: seq<char>) returns (now: seq<char>)
    requires !IsBracket(c) && base != [] && IsOpener(base[|base| - 1]) && AllAre(pending, '<')
    ensures AllAre(now, '<') && AngleForward(c, base + pending) == More(base + now)
  {
    var stack := base + pending;
    if c == '<' {
      now := pending + [c];
      assert stack + [c] == base + now;
    } else if (c == '>' || c == SHIFT) && pending != [] {
      now := pending[..|pending| - 1];
      assert stack[..|stack| - 1] == base + now;
    } else if c == ';' {
      now := [];
      PopPending(base, pending, '<');
      assert base + now == base;
    } else {
      now := pending;
    }
  }

  lemma CloserInside(c: char, base: seq<char>, pending: seq<char>)
    requires IsCloser(c) && base != [] && IsOpener(base[|base| - 1]) && AllAre(pending, '<')
    ensures AngleForward(c, base + pending) == if Pair(base[|base| - 1], c) then Pop(base) else Mismatch
  {
    PopPending(base, pending, '<');
  }

  lemma OpenerPushes(c: char, stack: seq<char>)
    requires IsOpener(c)
    ensures AngleForward(c, stack) == More(stack + [c]) && (stack + [c])[..|stack|] == stack
    ensures Pop(stack + [c]) == if stack == [] then Found else More(stack)
  {
  }

  lemma PairKinds(o: char, c: char)
    requires Pair(o, c)
    ensures IsOpener(o) && IsCloser(c) && IsBracket(o) && IsBracket(c)
  {
  }

  /** A balanced stretch inside brackets changes what is pending and nothing else. */
  lemma {:induction false} BalancedInside(w: string, i: nat, j: nat, base: seq<char>, pending: seq<char>)
      returns (now: seq<char>)
    requires i <= j <= |w| && Balanced(w[i..j])
    requires base != [] && IsOpener(base[|base| - 1]) && AllAre(pending, '<')
    ensures AllAre(now, '<') && AnglesFrom(w, i, base + pending) == AnglesFrom(w, j, base + now)
    decreases j - i
  {
    hide Balanced, AngleForward, IsOpener, IsCloser, Pair, Pop;
    if i == j {
      now := pending;
    } else if !IsBracket(w[i]) {
      FreeFirst(w, i, j);
      var next := FreeInside(w[i], base, pending);
      now := BalancedInside(w, i + 1, j, base, next);
    } else {
      var k := Partner(w, i, j);
      PairKinds(w[i], w[k]);
      var stack := base + pending;
      OpenerPushes(w[i], stack);
      assert stack + [w[i]] + [] == stack + [w[i]];
      var inner := BalancedInside(w, i + 1, k, stack + [w[i]], []);
      CloserInside(w[k], stack + [w[i]], inner);
      now := BalancedInside(w, k + 1, j, base, pending);
    }
  }

  lemma AngleTop(c: char, stack: seq<char>)
    requires stack != [] && AllAre(stack, '<')
    ensures c == '<' ==> AngleForward(c, stack) == More(stack + ['<']) && AllAre(stack + ['<'], '<')
    ensures c == '>' ==> AngleForward(c, stack) == Pop(stack)
    ensures c == SHIFT ==> AngleForward(c, stack) == if |stack| == 1 then Mismatch else More(stack[..|stack| - 1])
    ensures c == ';' || IsCloser(c) ==> AngleForward(c, stack) == Mismatch
    ensures Neutral(c) ==> AngleForward(c, stack) == More(stack)
    ensures AllAre(stack[..|stack| - 1], '<')
  {
    PopAll(stack, '<');
  }

  /** A pushed angle bracket comes off again. */
  lemma AngleOff(c: char, stack: seq<char>)
    requires stack != [] && AllAre(stack, '<') && (c == '>' || c == SHIFT)
    ensures AllAre(stack + ['<'], '<') && AngleForward(c, stack + ['<']) == More(stack)
  {
    assert (stack + ['<'])[..|stack|] == stack;
  }

  /** A bracketed stretch among the arguments leaves the stack as it was. */
  lemma GroupSkips(w: string, i: nat, k: nat, stack: seq<char>)
    requires i < k < |w| && Pair(w[i], w[k]) && Balanced(w[i + 1..k]) && stack != []
    ensures AnglesFrom(w, i, stack) == AnglesFrom(w, k + 1, stack)
  {
    hide Balanced, AngleForward, IsOpener, IsCloser, Pair, Pop;
    PairKinds(w[i], w[k]);
    OpenerPushes(w[i], stack);
    assert stack + [w[i]] + [] == stack + [w[i]];
    var inner := BalancedInside(w, i + 1, k, stack + [w[i]], []);
    CloserInside(w[k], stack + [w[i]], inner);
  }

  /** An argument list leaves the stack as it was. */
  lemma {:induction false} NestedSkips(w: string, i: nat, j: nat, stack: seq<char>)
    requires i <= j <= |w| && Nested(w, i, j) && stack != [] && AllAre(stack, '<')
    ensures AnglesFrom(w, i, stack) == AnglesFrom(w, j, stack)
    decreases j - i
  {
    hide Nested, Balanced, AngleForward, Neutral, Pair, AllAre;
    var part := FirstPart(w, i, j);
    match part
    case Empty =>
    case Single =>
      AngleTop(w[i], stack);
      NestedSkips(w, i + 1, j, stack);
    case Group(k) =>
      GroupSkips(w, i, k, stack);
      NestedSkips(w, k + 1, j, stack);
    case Angle(k) =>
      AngleTop(w[i], stack);
      AngleOff(w[k], stack);
      NestedSkips(w, i + 1, k, stack + ['<']);
      NestedSkips(w, k + 1, j, stack);
  }

  /** From inside brackets a successful search crosses a balanced stretch to the bracket at k that closes them. */
  ghost predicate Left(w: string, i: nat, base: seq<char>, pending: seq<char>, k: nat)
    requires i <= |w| && base != []
  {
    && i <= k < |w| && Balanced(w[i..k]) && Pair(base[|base| - 1], w[k])
    && AnglesFrom(w, i, base + pending) == AnglesFrom(w, k + 1, base[..|base| - 1])
  }

  lemma LeftFree(w: string, i: nat, base: seq<char>, pending: seq<char>, next: seq<char>, k: nat)
    requires i < |w| && !IsBracket(w[i]) && base != [] && Left(w, i + 1, base, next, k)
    requires AnglesFrom(w, i, base + pending) == AnglesFrom(w, i + 1, base + next)
    ensures Left(w, i, base, pending, k)
  {
    hide Balanced, AnglesFrom, IsBracket, Pair;
    FreeFirst(w, i, k);
  }

  lemma LeftGroup(w: string, i: nat, base: seq<char>, pending: seq<char>, inner: nat, k: nat)
    requires i < |w| && base != [] && Left(w, i + 1, base + pending + [w[i]], [], inner)
    requires Left(w, inner + 1, base, pending, k)
    requires AnglesFrom(w, i, base + pending) == AnglesFrom(w, inner + 1, base + pending)
    ensures Left(w, i, base, pending, k)
  {
    hide Balanced, AnglesFrom, Pair;
    BalancedPair(w, i, inner, k);
  }

  lemma InnerLeft(w: string, i: nat, stack: seq<char>, inner: nat)
    requires i < |w| && IsOpener(w[i]) && Left(w, i + 1, stack + [w[i]], [], inner)
    ensures inner < |w| && AnglesFrom(w, i, stack) == AnglesFrom(w, inner + 1, stack)
  {
    hide Balanced, AngleForward, Pair, IsOpener;
    OpenerPushes(w[i], stack);
    assert stack + [w[i]] + [] == stack + [w[i]];
  }

  lemma LeftHere(w: string, i: nat, base: seq<char>, pending: seq<char>)
    requires i < |w| && |base| >= 2 && IsOpener(base[|base| - 1]) && AllAre(pending, '<') && IsCloser(w[i])
    requires AnglesFrom(w, i, base + pending).At?
    ensures Left(w, i, base, pending, i)
  {
    hide Balanced, AngleForward, IsOpener, IsCloser, Pair;
    CloserInside(w[i], base, pending);
    Nothing(w, i);
  }

  lemma {:induction false} InsidePop(w: string, i: nat, base: seq<char>, pending: seq<char>) returns (k: nat)
    requires i <= |w| && |base| >= 2 && IsOpener(base[|base| - 1]) && AllAre(pending, '<')
    requires AnglesFrom(w, i, base + pending).At?
    ensures Left(w, i, base, pending, k)
    decreases |w| - i
  {
    assert i < |w|;
    BracketKinds(w[i]);
    hide Left, AngleForward, IsOpener, IsCloser, IsBracket, Pair;
    if !IsBracket(w[i]) {
      var next := FreeInside(w[i], base, pending);
      k := InsidePop(w, i + 1, base, next);
      LeftFree(w, i, base, pending, next, k);
    } else if IsOpener(w[i]) {
      var stack := base + pending;
      OpenerPushes(w[i], stack);
      assert stack + [w[i]] + [] == stack + [w[i]];
      var inner := InsidePop(w, i + 1, stack + [w[i]], []);
      InnerLeft(w, i, stack, inner);
      k := InsidePop(w, inner + 1, base, pending);
      LeftGroup(w, i, base, pending, inner, k);
    } else {
      k := i;
      LeftHere(w, i, base, pending);
    }
  }

  lemma BracketKinds(c: char)
    ensures IsBracket(c) <==> IsOpener(c) || IsCloser(c)
  {
  }

  /** A successful search crosses an argument list to what closes the top of the stack. */
  ghost predicate Closed(w: string, i: nat, stack: seq<char>, j: nat)
    requires i <= |w| && stack != []
  {
    && i <= j < |w| && Nested(w, i, j) && (w[j] == '>' || (w[j] == SHIFT && |stack| > 1))
    && var r := AnglesFrom(w, i, stack);
       if |stack| == 1 then r == At(j) else r == AnglesFrom(w, j + 1, stack[..|stack| - 1])
  }

  lemma ClosedHere(w: string, i: nat, stack: seq<char>)
    requires i < |w| && stack != [] && AllAre(stack, '<') && AnglesFrom(w, i, stack).At?
    requires w[i] == '>' || w[i] == SHIFT
    ensures Closed(w, i, stack, i)
  {
    hide AngleForward;
    AngleTop(w[i], stack);
    NestedNothing(w, i);
    hide Nested;
  }

  lemma ClosedNeutral(w: string, i: nat, stack: seq<char>, j: nat)
    requires i < |w| && stack != [] && Neutral(w[i]) && Closed(w, i + 1, stack, j)
    requires AnglesFrom(w, i, stack) == AnglesFrom(w, i + 1, stack)
    ensures Closed(w, i, stack, j)
  {
    hide Nested, Neutral, AnglesFrom;
    NestedNeutral(w, i, j);
  }

  lemma ClosedGroup(w: string, i: nat, stack: seq<char>, k: nat, j: nat)
    requires i < k < |w| && stack != [] && Pair(w[i], w[k]) && Balanced(w[i + 1..k]) && Closed(w, k + 1, stack, j)
    ensures Closed(w, i, stack, j)
  {
    GroupSkips(w, i, k, stack);
    hide Nested, Pair, Balanced, AnglesFrom;
    NestedGroup(w, i, k, j);
  }

  lemma ClosedAngle(w: string, i: nat, stack: seq<char>, k: nat, j: nat)
    requires i < |w| && w[i] == '<' && stack != [] && AllAre(stack, '<')
    requires Closed(w, i + 1, stack + ['<'], k) && Closed(w, k + 1, stack, j)
    requires AnglesFrom(w, i, stack) == AnglesFrom(w, k + 1, stack)
    ensures Closed(w, i, stack, j)
  {
    hide Nested, AnglesFrom;
    NestedAngle(w, i, k, j);
  }

  lemma InnerClosed(w: string, i: nat, stack: seq<char>, k: nat)
    requires i < |w| && w[i] == '<' && stack != [] && AllAre(stack, '<') && Closed(w, i + 1, stack + ['<'], k)
    ensures k < |w| && AnglesFrom(w, i, stack) == AnglesFrom(w, k + 1, stack)
  {
    hide AngleForward, Nested;
    AngleTop(w[i], stack);
    assert (stack + ['<'])[..|stack|] == stack;
  }

  lemma {:induction false} FirstClosed(w: string, i: nat, stack: seq<char>) returns (j: nat)
    requires i <= |w| && stack != [] && AllAre(stack, '<') && AnglesFrom(w, i, stack).At?
    ensures Closed(w, i, stack, j)
    decreases |w| - i
  {
    assert i < |w|;
    var c := w[i];
    AngleTop(c, stack);
    Kinds(c);
    hide Closed, AngleForward, IsOpener, IsCloser, IsBracket, Neutral, Balanced, Nested, Pair;
    if c == '>' || c == SHIFT {
      j := i;
      ClosedHere(w, i, stack);
    } else if Neutral(c) {
      j := FirstClosed(w, i + 1, stack);
      ClosedNeutral(w, i, stack, j);
    } else if c == '<' {
      var k := FirstClosed(w, i + 1, stack + ['<']);
      InnerClosed(w, i, stack, k);
      j := FirstClosed(w, k + 1, stack);
      ClosedAngle(w, i, stack, k, j);
    } else {
      assert IsOpener(c);
      OpenerPushes(c, stack);
      assert stack + [c] + [] == stack + [c];
      var k := InsidePop(w, i + 1, stack + [c], []);
      j := FirstClosed(w, k + 1, stack);
      ClosedGroup(w, i, stack, k, j);
    }
  }

  lemma Kinds(c: char)
    ensures c == '<' || c == '>' || c == SHIFT || c == ';' || IsOpener(c) || IsCloser(c) || Neutral(c)
  {
  }

  /** The search to the right from an angle bracket finds e exactly when e closes it. */
  lemma FindsAngleCloser(w: string, p: nat, e: nat)
    requires p < |w| && w[p] == '<'
    ensures AnglesFrom(w, p + 1, ['<']) == At(e) <==> AngleCloses(w, p, e)
  {
    if AnglesFrom(w, p + 1, ['<']) == At(e) {
      var j := FirstClosed(w, p + 1, ['<']);
    }
    if AngleCloses(w, p, e) {
      NestedSkips(w, p + 1, e, ['<']);
    }
  }

  // Right to left. The marks have no SHIFT there: both halves of a "<<" are neutral.

  lemma BackFreeInside(c: char, base: seq<char>, pending: seq<char>) returns (now: seq<char>)
    requires !IsBracket(c) && base != [] && IsCloser(base[|base| - 1]) && AllAre(pending, '>')
    ensures AllAre(now, '>') && AngleBackward(c, base + pending) == More(base + now)
  {
    var stack := base + pending;
    if c == '>' {
      now := pending + [c];
      assert stack + [c] == base + now;
    } else if c == '<' && pending != [] {
      now := pending[..|pending| - 1];
      assert stack[..|stack| - 1] == base + now;
    } else if c == ';' {
      now := [];
      PopPending(base, pending, '>');
      assert base + now == base;
    } else {
      now := pending;
    }
  }

  lemma OpenerInside(c: char, base: seq<char>, pending: seq<char>)
    requires IsOpener(c) && base != [] && IsCloser(base[|base| - 1]) && AllAre(pending, '>')
    ensures AngleBackward(c, base + pending) == if Pair(c, base[|base| - 1]) then Pop(base) else Mismatch
  {
    PopPending(base, pending, '>');
  }

  lemma CloserPushes(c: char, stack: seq<char>)
    requires IsCloser(c)
    ensures AngleBackward(c, stack) == More(stack + [c]) && (stack + [c])[..|stack|] == stack
    ensures Pop(stack + [c]) == if stack == [] then Found else More(stack)
  {
  }

  lemma {:induction false} BackBalancedInside(w: string, i: nat, j: nat, base: seq<char>, pending: seq<char>)
      returns (now: seq<char>)
    requires i <= j <= |w| && Balanced(w[i..j])
    requires base != [] && IsCloser(base[|base| - 1]) && AllAre(pending, '>')
    ensures AllAre(now, '>') && AnglesBefore(w, j, base + pending) == AnglesBefore(w, i, base + now)
    decreases j - i
  {
    hide Balanced, AngleBackward, IsOpener, IsCloser, Pair, Pop;
    if i == j {
      now := pending;
    } else if !IsBracket(w[i]) {
      FreeFirst(w, i, j);
      var last := BackBalancedInside(w, i + 1, j, base, pending);
      now := BackFreeInside(w[i], base, last);
    } else {
      var k := Partner(w, i, j);
      PairKinds(w[i], w[k]);
      now := BackBalancedInside(w, k + 1, j, base, pending);
      var stack := base + now;
      CloserPushes(w[k], stack);
      assert stack + [w[k]] + [] == stack + [w[k]];
      var inner := BackBalancedInside(w, i + 1, k, stack + [w[k]], []);
      OpenerInside(w[i], stack + [w[k]], inner);
    }
  }

  lemma BackAngleTop(c: char, stack: seq<char>)
    requires stack != [] && AllAre(stack, '>')
    ensures c == '>' ==> AngleBackward(c, stack) == More(stack + ['>']) && AllAre(stack + ['>'], '>')
    ensures c == '<' ==> AngleBackward(c, stack) == Pop(stack)
    ensures c == ';' || IsOpener(c) ==> AngleBackward(c, stack) == Mismatch
    ensures Neutral(c) ==> AngleBackward(c, stack) == More(stack)
    ensures AllAre(stack[..|stack| - 1], '>')
  {
    PopAll(stack, '>');
  }

  lemma BackAngleOff(stack: seq<char>)
    requires stack != [] && AllAre(stack, '>')
    ensures AllAre(stack + ['>'], '>') && AngleBackward('<', stack + ['>']) == More(stack)
  {
    assert (stack + ['>'])[..|stack|] == stack;
  }

  lemma BackGroupSkips(w: string, i: nat, k: nat, stack: seq<char>)
    requires i < k < |w| && Pair(w[i], w[k]) && Balanced(w[i + 1..k]) && stack != []
    ensures AnglesBefore(w, k + 1, stack) == AnglesBefore(w, i, stack)
  {
    hide Balanced, AngleBackward, IsOpener, IsCloser, Pair, Pop;
    PairKinds(w[i], w[k]);
    CloserPushes(w[k], stack);
    assert stack + [w[k]] + [] == stack + [w[k]];
    var inner := BackBalancedInside(w, i + 1, k, stack + [w[k]], []);
    OpenerInside(w[i], stack + [w[k]], inner);
  }

  lemma {:induction false} BackNestedSkips(w: string, i: nat, j: nat, stack: seq<char>)
    requires i <= j <= |w| && SHIFT !in w && Nested(w, i, j) && stack != [] && AllAre(stack, '>')
    ensures AnglesBefore(w, j, stack) == AnglesBefore(w, i, stack)
    decreases j - i
  {
    hide Nested, Balanced, AngleBackward, Neutral, Pair, AllAre;
    var part := FirstPart(w, i, j);
    match part
    case Empty =>
    case Single =>
      BackNestedSkips(w, i + 1, j, stack);
      BackAngleTop(w[i], stack);
    case Group(k) =>
      BackNestedSkips(w, k + 1, j, stack);
      BackGroupSkips(w, i, k, stack);
    case Angle(k) =>
      assert w[k] in w && w[k] == '>';
      BackNestedSkips(w, k + 1, j, stack);
      BackAngleTop(w[k], stack);
      BackNestedSkips(w, i + 1, k, stack + ['>']);
      BackAngleOff(stack);
  }

  ghost predicate BackLeft(w: string, i: nat, base: seq<char>, pending: seq<char>, k: nat)
    requires i <= |w| && base != []
  {
    && k < i && Balanced(w[k + 1..i]) && Pair(w[k], base[|base| - 1])
    && AnglesBefore(w, i, base + pending) == AnglesBefore(w, k, base[..|base| - 1])
  }

  lemma BackLeftFree(w: string, i: nat, base: seq<char>, pending: seq<char>, next: seq<char>, k: nat)
    requires 0 < i <= |w| && !IsBracket(w[i - 1]) && base != [] && BackLeft(w, i - 1, base, next, k)
    requires AnglesBefore(w, i, base + pending) == AnglesBefore(w, i - 1, base + next)
    ensures BackLeft(w, i, base, pending, k)
  {
    hide Balanced, AnglesBefore, IsBracket, Pair;
    FreeBehind(w, k + 1, i);
  }

  lemma BackLeftGroup(w: string, i: nat, base: seq<char>, pending: seq<char>, inner: nat, k: nat)
    requires 0 < i <= |w| && base != [] && BackLeft(w, i - 1, base + pending + [w[i - 1]], [], inner)
    requires BackLeft(w, inner, base, pending, k)
    requires AnglesBefore(w, i, base + pending) == AnglesBefore(w, inner, base + pending)
    ensures BackLeft(w, i, base, pending, k)
  {
    hide Balanced, AnglesBefore, Pair;
    PairBehind(w, k + 1, inner, i);
  }

  lemma InnerBackLeft(w: string, i: nat, stack: seq<char>, inner: nat)
    requires 0 < i <= |w| && IsCloser(w[i - 1]) && BackLeft(w, i - 1, stack + [w[i - 1]], [], inner)
    ensures inner < |w| && AnglesBefore(w, i, stack) == AnglesBefore(w, inner, stack)
  {
    hide Balanced, AngleBackward, Pair, IsCloser;
    CloserPushes(w[i - 1], stack);
    assert stack + [w[i - 1]] + [] == stack + [w[i - 1]];
  }

  lemma BackLeftHere(w: string, i: nat, base: seq<char>, pending: seq<char>)
    requires 0 < i <= |w| && |base| >= 2 && IsCloser(base[|base| - 1]) && AllAre(pending, '>') && IsOpener(w[i - 1])
    requires AnglesBefore(w, i, base + pending).At?
    ensures BackLeft(w, i, base, pending, i - 1)
  {
    hide Balanced, AngleBackward, IsOpener, IsCloser, Pair;
    OpenerInside(w[i - 1], base, pending);
    Nothing(w, i);
  }

  lemma {:induction false} BackInsidePop(w: string, i: nat, base: seq<char>, pending: seq<char>) returns (k: nat)
    requires i <= |w| && |base| >= 2 && IsCloser(base[|base| - 1]) && AllAre(pending, '>')
    requires AnglesBefore(w, i, base + pending).At?
    ensures BackLeft(w, i, base, pending, k)
    decreases i
  {
    assert i > 0;
    var c := w[i - 1];
    BracketKinds(c);
    hide BackLeft, AngleBackward, IsOpener, IsCloser, IsBracket, Pair;
    if !IsBracket(c) {
      var next := BackFreeInside(c, base, pending);
      k := BackInsidePop(w, i - 1, base, next);
      BackLeftFree(w, i, base, pending, next, k);
    } else if IsCloser(c) {
      var stack := base + pending;
      CloserPushes(c, stack);
      assert stack + [c] + [] == stack + [c];
      var inner := BackInsidePop(w, i - 1, stack + [c], []);
      InnerBackLeft(w, i, stack, inner);
      k := BackInsidePop(w, inner, base, pending);
      BackLeftGroup(w, i, base, pending, inner, k);
    } else {
      k := i - 1;
      BackLeftHere(w, i, base, pending);
    }
  }

  /** A successful search to the left crosses an argument list to what opens the top of the stack. */
  ghost predicate Opened(w: string, i: nat, stack: seq<char>, j: nat)
    requires i <= |w| && stack != []
  {
    && j < i && Nested(w, j + 1, i) && w[j] == '<'
    && var r := AnglesBefore(w, i, stack);
       if |stack| == 1 then r == At(j) else r == AnglesBefore(w, j, stack[..|stack| - 1])
  }

  lemma OpenedHere(w: string, i: nat, stack: seq<char>)
    requires 0 < i <= |w| && stack != [] && AllAre(stack, '>') && AnglesBefore(w, i, stack).At? && w[i - 1] == '<'
    ensures Opened(w, i, stack, i - 1)
  {
    hide AngleBackward;
    BackAngleTop(w[i - 1], stack);
    NestedNothing(w, i);
    hide Nested;
  }

  lemma OpenedNeutral(w: string, i: nat, stack: seq<char>, j: nat)
    requires 0 < i <= |w| && stack != [] && Neutral(w[i - 1]) && Opened(w, i - 1, stack, j)
    requires AnglesBefore(w, i, stack) == AnglesBefore(w, i - 1, stack)
    ensures Opened(w, i, stack, j)
  {
    hide Nested, Neutral, AnglesBefore;
    NestedNothing(w, i);
    NestedNeutral(w, i - 1, i);
    NestedConcat(w, j + 1, i - 1, i);
  }

  lemma OpenedGroup(w: string, i: nat, stack: seq<char>, k: nat, j: nat)
    requires k < i - 1 < |w| && stack != [] && Pair(w[k], w[i - 1]) && Balanced(w[k + 1..i - 1])
    requires Opened(w, k, stack, j)
    ensures Opened(w, i, stack, j)
  {
    BackGroupSkips(w, k, i - 1, stack);
    hide Nested, Pair, Balanced, AnglesBefore;
    NestedNothing(w, i);
    NestedGroup(w, k, i - 1, i);
    NestedConcat(w, j + 1, k, i);
  }

  lemma OpenedAngle(w: string, i: nat, stack: seq<char>, k: nat, j: nat)
    requires 0 < i <= |w| && w[i - 1] == '>' && stack != [] && AllAre(stack, '>')
    requires Opened(w, i - 1, stack + ['>'], k) && Opened(w, k, stack, j)
    requires AnglesBefore(w, i, stack) == AnglesBefore(w, k, stack)
    ensures Opened(w, i, stack, j)
  {
    hide Nested, AnglesBefore;
    NestedNothing(w, i);
    NestedAngle(w, k, i - 1, i);
    NestedConcat(w, j + 1, k, i);
  }

  lemma InnerOpened(w: string, i: nat, stack: seq<char>, k: nat)
    requires 0 < i <= |w| && w[i - 1] == '>' && stack != [] && AllAre(stack, '>') && Opened(w, i - 1, stack + ['>'], k)
    ensures k < |w| && AnglesBefore(w, i, stack) == AnglesBefore(w, k, stack)
  {
    hide AngleBackward, Nested;
    BackAngleTop(w[i - 1], stack);
    assert (stack + ['>'])[..|stack|] == stack;
  }

  lemma {:induction false} LastOpened(w: string, i: nat, stack: seq<char>) returns (j: nat)
    requires i <= |w| && SHIFT !in w && stack != [] && AllAre(stack, '>') && AnglesBefore(w, i, stack).At?
    ensures Opened(w, i, stack, j)
    decreases i
  {
    assert i > 0;
    var c := w[i - 1];
    assert c in w && c != SHIFT;
    BackAngleTop(c, stack);
    Kinds(c);
    hide Opened, AngleBackward, IsOpener, IsCloser, IsBracket, Neutral, Balanced, Nested, Pair;
    if c == '<' {
      j := i - 1;
      OpenedHere(w, i, stack);
    } else if Neutral(c) {
      j := LastOpened(w, i - 1, stack);
      OpenedNeutral(w, i, stack, j);
    } else if c == '>' {
      var k := LastOpened(w, i - 1, stack + ['>']);
      InnerOpened(w, i, stack, k);
      j := LastOpened(w, k, stack);
      OpenedAngle(w, i, stack, k, j);
    } else {
      assert IsCloser(c);
      CloserPushes(c, stack);
      assert stack + [c] + [] == stack + [c];
      var k := BackInsidePop(w, i - 1, stack + [c], []);
      j := LastOpened(w, k, stack);
      OpenedGroup(w, i, stack, k, j);
    }
  }

  /** The search to the left from an angle bracket finds p exactly when the angle bracket closes p. */
  lemma FindsAngleOpener(w: string, p: nat, e: nat)
    requires e < |w| && w[e] == '>' && SHIFT !in w
    ensures AnglesBefore(w, e, ['>']) == At(p) <==> AngleCloses(w, p, e)
  {
    if AnglesBefore(w, e, ['>']) == At(p) {
      var j := LastOpened(w, e, ['>']);
    }
    if AngleCloses(w, p, e) {
      BackNestedSkips(w, p + 1, e, ['>']);
    }
  }
}
