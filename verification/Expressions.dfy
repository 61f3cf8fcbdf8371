/** cpplint's search for the end or the start of a bracketed expression: a stack that also holds angle
    brackets, over the lines of a file. */
module Expressions {
  import opened Brackets
  import opened Angles
  import opened Options
  import opened Sequences

  // The regular expressions, over ASCII text.

  predicate IsSpace(c: char) {
    c == ' ' || '\t' <= c <= '\r'
  }

  predicate IsWord(c: char) {
    'a' <= c <= 'z' || 'A' <= c <= 'Z' || '0' <= c <= '9' || c == '_'
  }

  function StripRight(s: string): (t: string)
    ensures t <= s
  {
    if s != "" && IsSpace(s[|s| - 1]) then StripRight(s[..|s| - 1]) else s
  }

  /** `\boperator\s*$` matches at the end of s. */
  predicate EndsInOperator(s: string) {
    var t := StripRight(s);
    |t| >= 8 && t[|t| - 8..] == "operator" && (|t| == 8 || !IsWord(t[|t| - 9]))
  }

  lemma {:induction false} StripUnique(s: string, n: nat)
    requires n <= |s| && (n == 0 || !IsSpace(s[n - 1])) && forall i :: n <= i < |s| ==> IsSpace(s[i])
    ensures StripRight(s) == s[..n]
  {
    if n == |s| {
      assert s[..n] == s;
    } else {
      StripUnique(s[..|s| - 1], n);
      assert s[..|s| - 1][..n] == s[..n];
    }
  }

  lemma {:induction false} Stripped(s: string)
    ensures var n := |StripRight(s)|;
            (n == 0 || !IsSpace(s[n - 1])) && forall i :: n <= i < |s| ==> IsSpace(s[i])
  {
    if s == "" || !IsSpace(s[|s| - 1]) {
    } else {
      Stripped(s[..|s| - 1]);
    }
  }

  /** The regular expression read as it is written: a word boundary, the word, spaces, the end. */
  lemma EndsInOperatorMeans(s: string)
    ensures EndsInOperator(s) <==>
              exists k :: 0 <= k <= |s| - 8 && s[k..][..8] == "operator" && (k == 0 || !IsWord(s[k - 1]))
                          && forall i :: k + 8 <= i < |s| ==> IsSpace(s[i])
  {
    hide StripRight, IsSpace, IsWord;
    var t := StripRight(s);
    Stripped(s);
    if EndsInOperator(s) {
      var k := |t| - 8;
      assert s[k..][..8] == t[k..];
    }
    if k :| 0 <= k <= |s| - 8 && s[k..][..8] == "operator" && (k == 0 || !IsWord(s[k - 1]))
            && forall i :: k + 8 <= i < |s| ==> IsSpace(s[i]) {
      assert s[k + 7] == s[k..][..8][7] == 'r';
      LastLetter();
      StripUnique(s, k + 8);
      assert t[k..] == s[k..][..8];
    }
  }

  lemma LastLetter()
    ensures !IsSpace('r')
  {
  }

  /** `\s>=\s` matches around the '>' at i. */
  predicate SpacedGreaterEqual(line: string, i: nat)
    requires 0 < i < |line|
  {
    i + 2 < |line| && IsSpace(line[i - 1]) && line[i] == '>' && line[i + 1] == '=' && IsSpace(line[i + 2])
  }

  /** The effect of character i on the stack, left to right. */
  function ForwardChar(line: string, i: nat, stack: seq<char>): Step
    requires i < |line|
  {
    var c := line[i];
    if IsOpener(c) then More(stack + [c])
    else if c == '<' then
      if i > 0 && line[i - 1] == '<' then
        if stack != [] && stack[|stack| - 1] == '<' then
          (if |stack| == 1 then Mismatch else More(stack[..|stack| - 1]))
        else More(stack)
      else if i > 0 && EndsInOperator(line[..i]) then More(stack)
      else More(stack + ['<'])
    else if IsCloser(c) then
      var s := PopAngles(stack, '<');
      if s != [] && Pair(s[|s| - 1], c) then Pop(s) else Mismatch
    else if c == '>' then
      if i > 0 && (line[i - 1] == '-' || EndsInOperator(line[..i - 1])) then More(stack)
      else if stack != [] && stack[|stack| - 1] == '<' then Pop(stack)
      else More(stack)
    else if c == ';' then
      var s := PopAngles(stack, '<');
      if s == [] then Mismatch else More(s)
    else More(stack)
  }

  /** The '>' at i is part of another token, so the character before it is skipped too. */
  predicate IgnoredGreater(line: string, i: nat)
    requires i < |line|
  {
    i > 0 && (line[i - 1] == '-' || SpacedGreaterEqual(line, i) || EndsInOperator(line[..i]))
  }

  /** Character i is taken together with the one before it. */
  predicate TakesTwo(line: string, i: nat)
    requires i < |line|
  {
    (line[i] == '>' && IgnoredGreater(line, i)) || (line[i] == '<' && i > 0 && line[i - 1] == '<')
  }

  /** The effect of character i on the stack, right to left. */
  function BackwardChar(line: string, i: nat, stack: seq<char>): Step
    requires i < |line|
  {
    var c := line[i];
    if IsCloser(c) then More(stack + [c])
    else if TakesTwo(line, i) then More(stack)
    else if c == '>' then More(stack + ['>'])
    else if c == '<' then
      if stack != [] && stack[|stack| - 1] == '>' then Pop(stack) else More(stack)
    else if IsOpener(c) then
      var s := PopAngles(stack, '>');
      if s != [] && Pair(c, s[|s| - 1]) then Pop(s) else Mismatch
    else if c == ';' then
      var s := PopAngles(stack, '>');
      if s == [] then Mismatch else More(s)
    else More(stack)
  }

  /** A line scanned from i to its end: the position behind the match or -1, and the stack when it goes on. */
  function ForwardLine(line: string, i: nat, stack: seq<char>): (int, Option<seq<char>>)
    requires i <= |line|
    decreases |line| - i
  {
    if i == |line| then (-1, Some(stack))
    else match ForwardChar(line, i, stack)
         case More(s) => ForwardLine(line, i + 1, s)
         case Found => (i + 1, None)
         case Mismatch => (-1, None)
  }

  /** line[..i] scanned to its start. */
  function BackwardLine(line: string, i: nat, stack: seq<char>): (int, Option<seq<char>>)
    requires i <= |line|
  {
    if i == 0 then (-1, Some(stack))
    else match BackwardChar(line, i - 1, stack)
         case More(s) => BackwardLine(line, if TakesTwo(line, i - 1) then i - 2 else i - 1, s)
         case Found => (i - 1, None)
         case Mismatch => (-1, None)
  }

  // The stack without its angle brackets is the stack of plain matching.

  function Plain(stack: seq<char>, angle: char): seq<char> {
    if stack == [] then []
    else Plain(stack[..|stack| - 1], angle) + if stack[|stack| - 1] == angle then [] else [stack[|stack| - 1]]
  }

  lemma PlainPush(stack: seq<char>, c: char, angle: char)
    ensures Plain(stack + [c], angle) == if c == angle then Plain(stack, angle) else Plain(stack, angle) + [c]
  {
    assert (stack + [c])[..|stack|] == stack;
  }

  lemma {:induction false} PlainBottom(stack: seq<char>, angle: char)
    requires stack != [] && stack[0] != angle
    ensures Plain(stack, angle) != [] && Plain(stack, angle)[0] == stack[0]
  {
    if |stack| > 1 {
      PlainBottom(stack[..|stack| - 1], angle);
    } else {
      assert stack[..0] == [];
    }
  }

  /** Popping angle brackets exposes the top of the plain stack. */
  lemma {:induction false} PlainTop(stack: seq<char>, angle: char)
    requires stack != [] && stack[0] != angle
    ensures var s, p := PopAngles(stack, angle), Plain(stack, angle);
            && s != [] && s[0] == stack[0] && p != [] && Plain(s, angle) == p
            && s[|s| - 1] == p[|p| - 1] && Plain(s[..|s| - 1], angle) == p[..|p| - 1]
            && (|s| == 1 <==> |p| == 1)
  {
    var front := stack[..|stack| - 1];
    if stack[|stack| - 1] == angle {
      PlainTop(front, angle);
    } else if |stack| > 1 {
      PlainBottom(front, angle);
    } else {
      assert front == [];
    }
  }

  /** A stack whose bottom is a real bracket. */
  predicate Grounded(stack: seq<char>, angle: char) {
    stack != [] && stack[0] != angle
  }

  /** A step on the full stack is the plain step on the plain stack. */
  ghost predicate Agrees(step: Step, plain: Step, angle: char) {
    match step
    case More(s) => Grounded(s, angle) && plain == More(Plain(s, angle))
    case _ => plain == step
  }

  lemma CloserAgrees(stack: seq<char>, angle: char)
    requires Grounded(stack, angle)
    ensures var s, p := PopAngles(stack, angle), Plain(stack, angle);
            s != [] && p != [] && s[|s| - 1] == p[|p| - 1]
            && Agrees(Pop(s), Pop(p), angle)
  {
    PlainTop(stack, angle);
  }

  lemma PushAgrees(stack: seq<char>, c: char, angle: char)
    requires Grounded(stack, angle)
    ensures c != angle ==> Agrees(More(stack + [c]), More(Plain(stack, angle) + [c]), angle)
    ensures c == angle ==> Agrees(More(stack + [c]), More(Plain(stack, angle)), angle)
  {
    PlainPush(stack, c, angle);
  }

  /** Removing pending angle brackets does not empty the stack and leaves the plain stack. */
  lemma AnglesAgree(stack: seq<char>, angle: char)
    requires Grounded(stack, angle)
    ensures PopAngles(stack, angle) != []
    ensures Agrees(More(PopAngles(stack, angle)), More(Plain(stack, angle)), angle)
    ensures stack[|stack| - 1] == angle ==> |stack| > 1 && Agrees(Pop(stack), More(Plain(stack, angle)), angle)
  {
    PlainTop(stack, angle);
  }

  /** Whatever '<', '>' and ';' do to the stack, the plain brackets on it change as in plain matching. */
  lemma ForwardCharAgrees(line: string, i: nat, stack: seq<char>)
    requires i < |line| && Grounded(stack, '<')
    ensures Agrees(ForwardChar(line, i, stack), Forward(line[i], Plain(stack, '<')), '<')
  {
    var c := line[i];
    if IsOpener(c) {
      hide Plain, Agrees;
      PushAgrees(stack, c, '<');
    } else if IsCloser(c) {
      hide Plain, Agrees;
      ForwardCloser(line, i, stack);
    } else {
      hide EndsInOperator, Plain, Agrees, Grounded, PopAngles;
      PushAgrees(stack, '<', '<');
      AnglesAgree(stack, '<');
      assert Agrees(More(stack), More(Plain(stack, '<')), '<') by { Same(stack, '<'); }
    }
  }

  lemma Same(stack: seq<char>, angle: char)
    requires Grounded(stack, angle)
    ensures Agrees(More(stack), More(Plain(stack, angle)), angle)
  {
  }

  lemma ForwardCloser(line: string, i: nat, stack: seq<char>)
    requires i < |line| && Grounded(stack, '<') && IsCloser(line[i])
    ensures Agrees(ForwardChar(line, i, stack), Forward(line[i], Plain(stack, '<')), '<')
  {
    hide Plain;
    CloserAgrees(stack, '<');
  }

  lemma BackwardCharAgrees(line: string, i: nat, stack: seq<char>)
    requires i < |line| && Grounded(stack, '>')
    ensures Agrees(BackwardChar(line, i, stack), Backward(line[i], Plain(stack, '>')), '>')
  {
    hide TakesTwo;
    var c := line[i];
    TwoIsAngle(line, i);
    if IsCloser(c) {
      hide Plain, Agrees;
      PushAgrees(stack, c, '>');
    } else if IsOpener(c) {
      hide Plain, Agrees;
      BackwardOpener(line, i, stack);
    } else {
      hide Plain, Agrees, Grounded, PopAngles;
      PushAgrees(stack, '>', '>');
      AnglesAgree(stack, '>');
      assert Agrees(More(stack), More(Plain(stack, '>')), '>') by { Same(stack, '>'); }
    }
  }

  lemma BackwardOpener(line: string, i: nat, stack: seq<char>)
    requires i < |line| && Grounded(stack, '>') && IsOpener(line[i])
    ensures Agrees(BackwardChar(line, i, stack), Backward(line[i], Plain(stack, '>')), '>')
  {
    hide Plain, TakesTwo;
    TwoIsAngle(line, i);
    CloserAgrees(stack, '>');
  }

  lemma TwoIsAngle(line: string, i: nat)
    requires i < |line|
    ensures TakesTwo(line, i) ==> line[i] == '>' || line[i] == '<'
  {
  }

  lemma {:induction false} OperatorEnd(s: string)
    requires EndsInOperator(s)
    ensures s != "" && (IsSpace(s[|s| - 1]) || s[|s| - 1] == 'r')
  {
    var t := StripRight(s);
    assert t[|t| - 8..][7] == 'r';
  }

  /** The character skipped along is never a bracket. */
  lemma SkippedIsFree(line: string, i: nat)
    requires i < |line| && TakesTwo(line, i)
    ensures i > 0 && !IsBracket(line[i - 1])
  {
    hide EndsInOperator;
    if EndsInOperator(line[..i]) {
      OperatorEnd(line[..i]);
    }
  }

  /** text contains line at off. */
  ghost predicate LineAt(text: string, off: nat, line: string) {
    off + |line| <= |text| && text[off..off + |line|] == line
  }

  lemma LineFits(text: string, off: nat, line: string)
    requires LineAt(text, off, line)
    ensures off + |line| <= |text|
  {
  }

  lemma CharAt(text: string, off: nat, line: string, i: nat)
    requires LineAt(text, off, line) && i < |line|
    ensures off + i < |text| && text[off + i] == line[i]
  {
    assert text[off..off + |line|][i] == line[i];
  }

  /** Scanning a line is scanning its stretch of the text with plain matching. */
  lemma {:induction false} ForwardLineAgrees(text: string, off: nat, line: string, i: nat, stack: seq<char>)
    requires LineAt(text, off, line) && i <= |line| && Grounded(stack, '<')
    ensures var (e, st) := ForwardLine(line, i, stack);
            var r := ScanForward(text, off + i, Plain(stack, '<'));
            match st
            case Some(s) => e == -1 && Grounded(s, '<') && r == ScanForward(text, off + |line|, Plain(s, '<'))
            case None => if e == -1 then r == Failed else i < e <= |line| && r == At(off + e - 1)
    decreases |line| - i
  {
    hide Plain, ForwardChar, Forward, LineAt;
    if i == |line| {
      LineFits(text, off, line);
    } else {
      CharAt(text, off, line, i);
      ForwardCharAgrees(line, i, stack);
      if ForwardChar(line, i, stack).More? {
        ForwardLineAgrees(text, off, line, i + 1, ForwardChar(line, i, stack).stack);
      }
    }
  }

  lemma {:induction false} BackwardLineAgrees(text: string, off: nat, line: string, i: nat, stack: seq<char>)
    requires LineAt(text, off, line) && i <= |line| && Grounded(stack, '>')
    ensures var (b, st) := BackwardLine(line, i, stack);
            var r := ScanBackward(text, off + i, Plain(stack, '>'));
            match st
            case Some(s) => b == -1 && Grounded(s, '>') && r == ScanBackward(text, off, Plain(s, '>'))
            case None => if b == -1 then r == Failed else 0 <= b < i && r == At(off + b)
    decreases i
  {
    hide Plain, BackwardChar, TakesTwo, LineAt;
    LineFits(text, off, line);
    if i == 0 {
    } else {
      CharAt(text, off, line, i - 1);
      BackwardCharAgrees(line, i - 1, stack);
      var step := BackwardChar(line, i - 1, stack);
      if step.More? {
        if TakesTwo(line, i - 1) {
          SkippedIsFree(line, i - 1);
          CharAt(text, off, line, i - 2);
          BackwardLineAgrees(text, off, line, i - 2, step.stack);
        } else {
          BackwardLineAgrees(text, off, line, i - 1, step.stack);
        }
      }
    }
  }

  // A file: its lines joined.

  /** The position in the text where line n starts. */
  function Offset(lines: seq<string>, n: nat): nat
    requires n <= |lines|
  {
    |Flatten(lines[..n])|
  }

  lemma {:induction false} TextPrefix(lines: seq<string>, n: nat)
    requires n <= |lines|
    ensures Flatten(lines[..n]) <= Flatten(lines)
  {
    if n == |lines| {
      assert lines[..n] == lines;
    } else {
      var front := lines[..|lines| - 1];
      TextPrefix(front, n);
      assert front[..n] == lines[..n];
    }
  }

  lemma LineInText(lines: seq<string>, n: nat)
    requires n < |lines|
    ensures LineAt(Flatten(lines), Offset(lines, n), lines[n])
    ensures Offset(lines, n + 1) == Offset(lines, n) + |lines[n]| <= |Flatten(lines)|
  {
    var before, text := Flatten(lines[..n]), Flatten(lines[..n + 1]);
    assert lines[..n + 1][..n] == lines[..n];
    assert text == before + lines[n];
    TextPrefix(lines, n + 1);
    hide Flatten;
    Slice(Flatten(lines), 0, |text|, |before|, |text|);
  }

  // The angle brackets of a line, and the stack on them.

  /** What character i counts as, left to right. */
  function Mark(line: string, i: nat): char
    requires i < |line|
  {
    var c := line[i];
    if IsBracket(c) || c == ';' then c
    else if c == '<' then
      if i > 0 && line[i - 1] == '<' then SHIFT
      else if i > 0 && EndsInOperator(line[..i]) then ' '
      else '<'
    else if c == '>' then
      if i > 0 && (line[i - 1] == '-' || EndsInOperator(line[..i - 1])) then ' ' else '>'
    else ' '
  }

  function Marks(line: string): (m: string)
    ensures |m| == |line|
  {
    seq(|line|, i requires 0 <= i < |line| => Mark(line, i))
  }

  /** What the characters of line[..n] count as, right to left. */
  function BackMarks(line: string, n: nat): (m: string)
    requires n <= |line|
    ensures |m| == n
  {
    if n == 0 then ""
    else if TakesTwo(line, n - 1) then BackMarks(line, n - 2) + "  "
    else
      var c := line[n - 1];
      BackMarks(line, n - 1) + [if IsBracket(c) || c == '<' || c == '>' || c == ';' then c else ' ']
  }

  lemma MarkStep(line: string, i: nat, stack: seq<char>)
    requires i < |line|
    ensures ForwardChar(line, i, stack) == AngleForward(Mark(line, i), stack)
    ensures stack != [] && ForwardChar(line, i, stack).More? ==> ForwardChar(line, i, stack).stack != []
  {
    hide EndsInOperator;
  }

  /** Scanning a line is running the angle machine over its marks. */
  lemma {:induction false} ForwardLineMarks(w: string, off: nat, line: string, i: nat, stack: seq<char>)
    requires LineAt(w, off, Marks(line)) && i <= |line| && stack != []
    ensures off + |line| <= |w|
    ensures var (e, st) := ForwardLine(line, i, stack);
            var r := AnglesFrom(w, off + i, stack);
            match st
            case Some(s) => e == -1 && s != [] && r == AnglesFrom(w, off + |line|, s)
            case None => if e == -1 then r == Failed else i < e <= |line| && r == At(off + e - 1)
    decreases |line| - i
  {
    hide ForwardChar, AngleForward, LineAt, Mark;
    LineFits(w, off, Marks(line));
    if i == |line| {
    } else {
      CharAt(w, off, Marks(line), i);
      MarkStep(line, i, stack);
      if ForwardChar(line, i, stack).More? {
        ForwardLineMarks(w, off, line, i + 1, ForwardChar(line, i, stack).stack);
      }
    }
  }

  lemma BackMarkStep(line: string, n: nat, stack: seq<char>)
    requires 0 < n <= |line|
    ensures var m := BackMarks(line, n);
            if TakesTwo(line, n - 1)
            then n >= 2 && m == BackMarks(line, n - 2) + "  " && BackwardChar(line, n - 1, stack) == More(stack)
            else m[..n - 1] == BackMarks(line, n - 1)
                 && BackwardChar(line, n - 1, stack) == AngleBackward(m[n - 1], stack)
    ensures stack != [] && BackwardChar(line, n - 1, stack).More? ==> BackwardChar(line, n - 1, stack).stack != []
  {
    hide EndsInOperator, SpacedGreaterEqual;
    TwoIsAngle(line, n - 1);
  }

  lemma TwoNeutral(w: string, i: nat, stack: seq<char>)
    requires 2 <= i <= |w| && w[i - 1] == ' ' && w[i - 2] == ' '
    ensures AnglesBefore(w, i, stack) == AnglesBefore(w, i - 2, stack)
  {
    assert AngleBackward(' ', stack) == More(stack);
    assert AnglesBefore(w, i, stack) == AnglesBefore(w, i - 1, stack);
  }

  lemma FrontLineAt(w: string, off: nat, m: string, front: string)
    requires LineAt(w, off, m) && front <= m
    ensures LineAt(w, off, front)
  {
    assert w[off..off + |m|][..|front|] == w[off..off + |front|];
  }

  lemma {:induction false} BackwardLineMarks(w: string, off: nat, line: string, n: nat, stack: seq<char>)
    requires n <= |line| && LineAt(w, off, BackMarks(line, n)) && stack != []
    ensures off + n <= |w|
    ensures var (b, st) := BackwardLine(line, n, stack);
            var r := AnglesBefore(w, off + n, stack);
            match st
            case Some(s) => b == -1 && s != [] && r == AnglesBefore(w, off, s)
            case None => if b == -1 then r == Failed else 0 <= b < n && r == At(off + b)
    decreases n
  {
    hide BackwardChar, AngleBackward, LineAt, TakesTwo, BackMarks;
    var m := BackMarks(line, n);
    LineFits(w, off, m);
    if n == 0 {
    } else {
      BackMarkStep(line, n, stack);
      CharAt(w, off, m, n - 1);
      if TakesTwo(line, n - 1) {
        CharAt(w, off, m, n - 2);
        TwoNeutral(w, off + n, stack);
        FrontLineAt(w, off, m, BackMarks(line, n - 2));
        BackwardLineMarks(w, off, line, n - 2, stack);
      } else {
        FrontLineAt(w, off, m, BackMarks(line, n - 1));
        if BackwardChar(line, n - 1, stack).More? {
          BackwardLineMarks(w, off, line, n - 1, BackwardChar(line, n - 1, stack).stack);
        }
      }
    }
  }

  /** The marks of a whole file. */
  function AllMarks(lines: seq<string>): (m: seq<string>)
    ensures |m| == |lines|
  {
    seq(|lines|, k requires 0 <= k < |lines| => Marks(lines[k]))
  }

  /** The marks, right to left, of the lines before line n and of its characters up to pos. */
  function MarksUpTo(lines: seq<string>, n: nat, pos: nat): (m: seq<string>)
    requires n < |lines| && pos < |lines[n]|
    ensures |m| == n + 1
  {
    seq(n + 1, k requires 0 <= k <= n => BackMarks(lines[k], if k == n then pos + 1 else |lines[k]|))
  }

  /** Texts of lines of the same lengths have the same line starts. */
  lemma {:induction false} SameOffsets(a: seq<string>, b: seq<string>, n: nat)
    requires n <= |a| && n <= |b| && forall k :: 0 <= k < n ==> |a[k]| == |b[k]|
    ensures Offset(a, n) == Offset(b, n)
  {
    if n == 0 {
      NoText(a);
      NoText(b);
    } else {
      SameOffsets(a, b, n - 1);
      LineInText(a, n - 1);
      LineInText(b, n - 1);
    }
  }

  lemma {:induction false} NoShift(line: string, n: nat)
    requires n <= |line|
    ensures SHIFT !in BackMarks(line, n)
  {
    hide TakesTwo;
    if n == 0 {
    } else if TakesTwo(line, n - 1) {
      TwoIsAngle(line, n - 1);
      SkippedIsFree(line, n - 1);
      NoShift(line, n - 2);
    } else {
      NoShift(line, n - 1);
    }
  }

  lemma {:induction false} NoShiftInText(parts: seq<string>)
    requires forall k :: 0 <= k < |parts| ==> SHIFT !in parts[k]
    ensures SHIFT !in Flatten(parts)
  {
    if parts == [] {
    } else {
      NoShiftInText(parts[..|parts| - 1]);
    }
  }

  /** FindEndOfExpressionInLine, from `startpos` to the end of the line. */
  method FindEndOfExpressionInLine(line: string, startpos: nat, stack0: seq<char>)
    returns (end: int, rest: Option<seq<char>>)
    requires startpos <= |line|
    ensures (end, rest) == ForwardLine(line, startpos, stack0)
  {
    hide EndsInOperator;
    var stack := stack0;
    var i := startpos;
    while i < |line|
      invariant startpos <= i <= |line|
      invariant ForwardLine(line, startpos, stack0) == ForwardLine(line, i, stack)
    {
      var c := line[i];
      if IsOpener(c) {
        stack := stack + [c];
      } else if c == '<' {
        if i > 0 && line[i - 1] == '<' {
          if stack != [] && stack[|stack| - 1] == '<' {
            stack := stack[..|stack| - 1];
            if stack == [] {
              return -1, None;
            }
          }
        } else if i > 0 && EndsInOperator(line[..i]) {
        } else {
          stack := stack + ['<'];
        }
      } else if IsCloser(c) {
        var s := DropAngles(stack, '<');
        if s == [] || !Pair(s[|s| - 1], c) {
          return -1, None;
        }
        stack := s[..|s| - 1];
        if stack == [] {
          return i + 1, None;
        }
      } else if c == '>' {
        if i > 0 && (line[i - 1] == '-' || EndsInOperator(line[..i - 1])) {
        } else if stack != [] && stack[|stack| - 1] == '<' {
          stack := stack[..|stack| - 1];
          if stack == [] {
            return i + 1, None;
          }
        }
      } else if c == ';' {
        stack := DropAngles(stack, '<');
        if stack == [] {
          return -1, None;
        }
      }
      i := i + 1;
    }
    return -1, Some(stack);
  }

  /** `while stack and stack[-1] == angle: stack.pop()`. */
  method DropAngles(stack0: seq<char>, angle: char) returns (stack: seq<char>)
    ensures stack == PopAngles(stack0, angle)
  {
    stack := stack0;
    while stack != [] && stack[|stack| - 1] == angle
      invariant PopAngles(stack, angle) == PopAngles(stack0, angle)
      decreases |stack|
    {
      stack := stack[..|stack| - 1];
    }
  }

  /** FindStartOfExpressionInLine, from `endpos` down to the start of the line. */
  method FindStartOfExpressionInLine(line: string, endpos: int, stack0: seq<char>)
    returns (start: int, rest: Option<seq<char>>)
    requires -1 <= endpos < |line|
    ensures (start, rest) == BackwardLine(line, endpos + 1, stack0)
  {
    hide EndsInOperator, SpacedGreaterEqual;
    var stack := stack0;
    var i := endpos;
    while i >= 0
      invariant -1 <= i <= endpos
      invariant BackwardLine(line, endpos + 1, stack0) == BackwardLine(line, i + 1, stack)
      decreases i
    {
      var c := line[i];
      if IsCloser(c) {
        stack := stack + [c];
      } else if c == '>' {
        if i > 0 && (line[i - 1] == '-' || SpacedGreaterEqual(line, i) || EndsInOperator(line[..i])) {
          i := i - 1;
        } else {
          stack := stack + ['>'];
        }
      } else if c == '<' {
        if i > 0 && line[i - 1] == '<' {
          i := i - 1;
        } else if stack != [] && stack[|stack| - 1] == '>' {
          stack := stack[..|stack| - 1];
          if stack == [] {
            return i, None;
          }
        }
      } else if IsOpener(c) {
        var s := DropAngles(stack, '>');
        if s == [] || !Pair(c, s[|s| - 1]) {
          return -1, None;
        }
        stack := s[..|s| - 1];
        if stack == [] {
          return i, None;
        }
      } else if c == ';' {
        stack := DropAngles(stack, '>');
        if stack == [] {
          return -1, None;
        }
      }
      i := i - 1;
    }
    return -1, Some(stack);
  }

  /** The first character of the scan grounds the stack. */
  lemma ForwardStart(text: string, off: nat, line: string, pos: nat)
    requires LineAt(text, off, line) && pos < |line| && IsOpener(line[pos])
    ensures ForwardLine(line, pos, []) == ForwardLine(line, pos + 1, [line[pos]])
    ensures off + pos < |text| && text[off + pos] == line[pos]
    ensures ScanForward(text, off + pos, []) == ScanForward(text, off + pos + 1, Plain([line[pos]], '<'))
  {
    CharAt(text, off, line, pos);
    PlainPush([], line[pos], '<');
    assert [] + [line[pos]] == [line[pos]];
  }

  lemma BackwardStart(text: string, off: nat, line: string, pos: nat)
    requires LineAt(text, off, line) && pos < |line| && IsCloser(line[pos])
    ensures BackwardLine(line, pos + 1, []) == BackwardLine(line, pos, [line[pos]])
    ensures off + pos < |text| && text[off + pos] == line[pos]
    ensures ScanBackward(text, off + pos + 1, []) == ScanBackward(text, off + pos, Plain([line[pos]], '>'))
  {
    CharAt(text, off, line, pos);
    PlainPush([], line[pos], '>');
    assert [] + [line[pos]] == [line[pos]];
    TwoIsAngle(line, pos);
  }

  /** How far an unfinished search has come: failed, or the plain scan goes on at `at`. */
  ghost predicate ForwardSoFar(text: string, p: nat, at: nat, rest: Option<seq<char>>)
    requires p <= |text|
  {
    match rest
    case Some(s) => at <= |text| && Grounded(s, '<')
                    && ScanForward(text, p, []) == ScanForward(text, at, Plain(s, '<'))
    case None => ScanForward(text, p, []) == Failed
  }

  ghost predicate BackwardSoFar(text: string, e: nat, at: nat, rest: Option<seq<char>>)
    requires e <= |text|
  {
    match rest
    case Some(s) => at <= |text| && Grounded(s, '>')
                    && ScanBackward(text, e, []) == ScanBackward(text, at, Plain(s, '>'))
    case None => ScanBackward(text, e, []) == Failed
  }

  predicate SearchableForward(line: string, pos: nat)
    requires pos < |line|
  {
    IsOpener(line[pos])
    || (line[pos] == '<' && !(pos + 1 < |line| && (line[pos + 1] == '<' || line[pos + 1] == '=')))
  }

  /** How far an unfinished search from an angle bracket has come: failed, or the machine goes on at `at`. */
  ghost predicate AnglesSoFar(w: string, p: nat, at: nat, rest: Option<seq<char>>)
    requires p < |w|
  {
    match rest
    case Some(s) => at <= |w| && s != [] && AnglesFrom(w, p + 1, ['<']) == AnglesFrom(w, at, s)
    case None => AnglesFrom(w, p + 1, ['<']) == Failed
  }

  lemma MarkedLine(lines: seq<string>, n: nat)
    requires n < |lines|
    ensures var w := Flatten(AllMarks(lines));
            LineAt(w, Offset(lines, n), Marks(lines[n])) && Offset(lines, n + 1) == Offset(lines, n) + |lines[n]| <= |w|
  {
    SameOffsets(lines, AllMarks(lines), n);
    LineInText(AllMarks(lines), n);
    LineInText(lines, n);
  }

  /** The first line of a search from an angle bracket. */
  lemma AngleStart(lines: seq<string>, n: nat, pos: nat)
    requires n < |lines| && pos < |lines[n]| && Mark(lines[n], pos) == '<'
    ensures var w, p, off := Flatten(AllMarks(lines)), Offset(lines, n) + pos, Offset(lines, n);
            var (e, st) := ForwardLine(lines[n], pos, []);
            && p < |w| && w[p] == '<' && (e > 0 ==> AnglesFrom(w, p + 1, ['<']) == At(off + e - 1))
            && (e == -1 ==> AnglesSoFar(w, p, Offset(lines, n + 1), st))
  {
    hide AnglesFrom, LineAt, Flatten, AllMarks, Mark, ForwardChar, AngleForward;
    var line := lines[n];
    MarkedLine(lines, n);
    CharAt(Flatten(AllMarks(lines)), Offset(lines, n), Marks(line), pos);
    MarkStep(line, pos, []);
    FirstAngle();
    assert ForwardLine(line, pos, []) == ForwardLine(line, pos + 1, ['<']);
    ForwardLineMarks(Flatten(AllMarks(lines)), Offset(lines, n), line, pos + 1, ['<']);
    LineResult(line, pos + 1, ['<']);
  }

  lemma FirstAngle()
    ensures AngleForward('<', []) == More(['<'])
  {
  }

  lemma AngleNext(lines: seq<string>, n: nat, p: nat, stack: seq<char>)
    requires n < |lines| && p < |Flatten(AllMarks(lines))|
    requires AnglesSoFar(Flatten(AllMarks(lines)), p, Offset(lines, n), Some(stack))
    ensures var w := Flatten(AllMarks(lines));
            var (e, st) := ForwardLine(lines[n], 0, stack);
            && (e > 0 ==> AnglesFrom(w, p + 1, ['<']) == At(Offset(lines, n) + e - 1))
            && (e == -1 ==> AnglesSoFar(w, p, Offset(lines, n + 1), st))
  {
    hide AnglesFrom, LineAt, Flatten, AllMarks;
    MarkedLine(lines, n);
    ForwardLineMarks(Flatten(AllMarks(lines)), Offset(lines, n), lines[n], 0, stack);
    LineResult(lines[n], 0, stack);
  }

  lemma AngleEnd(lines: seq<string>, p: nat, rest: Option<seq<char>>)
    requires p < |Flatten(AllMarks(lines))| && AnglesSoFar(Flatten(AllMarks(lines)), p, Offset(lines, |lines|), rest)
    ensures !AnglesFrom(Flatten(AllMarks(lines)), p + 1, ['<']).At?
  {
    SameOffsets(lines, AllMarks(lines), |lines|);
    WholeText(AllMarks(lines));
  }

  /** What a search from the angle bracket at p found, or that it found nothing. */
  ghost predicate AngleFound(w: string, p: nat, e: int) {
    if e >= 0 then AngleCloses(w, p, e) else forall q :: !AngleCloses(w, p, q)
  }

  lemma AngleAnswer(w: string, p: nat, e: int)
    requires p < |w| && w[p] == '<'
    requires if e >= 0 then AnglesFrom(w, p + 1, ['<']) == At(e) else !AnglesFrom(w, p + 1, ['<']).At?
    ensures AngleFound(w, p, e)
  {
    forall q ensures AnglesFrom(w, p + 1, ['<']) == At(q) <==> AngleCloses(w, p, q) {
      FindsAngleCloser(w, p, q);
    }
  }

  /** For every opener ( [ {, finds the position behind the bracket that closes it in plain matching over the
      joined lines, and reports (number of lines, -1) exactly when nothing closes it. From a '<' that counts as an
      angle bracket, the same with the angle bracket that closes it. */
  method CloseExpression(lines: seq<string>, linenum0: nat, pos: nat) returns (linenum: nat, endPos: int)
    requires linenum0 < |lines| && pos < |lines[linenum0]|
    ensures endPos >= 0 ==> linenum < |lines| && 1 <= endPos <= |lines[linenum]|
    ensures endPos < 0 ==> endPos == -1 && linenum == |lines|
    ensures IsOpener(lines[linenum0][pos]) ==>
              var p := Offset(lines, linenum0) + pos;
              if endPos >= 0 then Closes(Flatten(lines), p, Offset(lines, linenum) + endPos - 1)
              else forall e :: !Closes(Flatten(lines), p, e)
    ensures !SearchableForward(lines[linenum0], pos) ==> endPos == -1
    ensures SearchableForward(lines[linenum0], pos) && Mark(lines[linenum0], pos) == '<' ==>
              AngleFound(Flatten(AllMarks(lines)), Offset(lines, linenum0) + pos,
                         if endPos >= 0 then Offset(lines, linenum) + endPos - 1 else -1)
  {
    hide Closes, Flatten, ForwardLine, ScanForward, LineAt, AllMarks, AnglesFrom, AnglesSoFar, AngleFound, Mark;
    ghost var text, p := Flatten(lines), Offset(lines, linenum0) + pos;
    ghost var w := Flatten(AllMarks(lines));
    ghost var open, angle := IsOpener(lines[linenum0][pos]), Mark(lines[linenum0], pos) == '<';
    linenum := linenum0;
    LineInText(lines, linenum);
    var line := lines[linenum];
    if !SearchableForward(line, pos) {
      return |lines|, -1;
    }
    var rest;
    endPos, rest := FindEndOfExpressionInLine(line, pos, []);
    if open {
      ForwardStart(text, Offset(lines, linenum), line, pos);
      ForwardLineAgrees(text, Offset(lines, linenum), line, pos + 1, [line[pos]]);
      forall e ensures ScanForward(text, p, []) == At(e) <==> Closes(text, p, e) {
        ForwardFindsCloser(text, p, e);
      }
    }
    LineResult(line, pos, []);
    if angle {
      AngleStart(lines, linenum, pos);
    }
    if endPos > -1 {
      if angle {
        AngleAnswer(w, p, Offset(lines, linenum) + endPos - 1);
      }
      return linenum, endPos;
    }
    while rest.Some? && rest.value != [] && linenum < |lines| - 1
      invariant linenum < |lines|
      invariant endPos == -1
      invariant open ==> p < |text| && ForwardSoFar(text, p, Offset(lines, linenum + 1), rest)
      invariant angle ==> p < |w| && w[p] == '<' && AnglesSoFar(w, p, Offset(lines, linenum + 1), rest)
      decreases |lines| - linenum
    {
      linenum := linenum + 1;
      line := lines[linenum];
      LineInText(lines, linenum);
      if open {
        ForwardLineAgrees(text, Offset(lines, linenum), line, 0, rest.value);
      }
      if angle {
        AngleNext(lines, linenum, p, rest.value);
      }
      LineResult(line, 0, rest.value);
      endPos, rest := FindEndOfExpressionInLine(line, 0, rest.value);
      if endPos > -1 {
        if angle {
          AngleAnswer(w, p, Offset(lines, linenum) + endPos - 1);
        }
        return linenum, endPos;
      }
    }
    if open && rest.Some? {
      WholeText(lines);
      ScanEnds(text, Plain(rest.value, '<'));
    }
    if angle {
      NeverEmpty(w, p, Offset(lines, linenum + 1), rest);
      AngleFailed(lines, linenum, p, rest);
      AngleAnswer(w, p, -1);
    }
    return |lines|, -1;
  }

  lemma NeverEmpty(w: string, p: nat, at: nat, rest: Option<seq<char>>)
    requires p < |w| && AnglesSoFar(w, p, at, rest)
    ensures rest.Some? ==> rest.value != []
  {
  }

  lemma AngleFailed(lines: seq<string>, n: nat, p: nat, rest: Option<seq<char>>)
    requires n < |lines| && (rest.None? || n == |lines| - 1) && p < |Flatten(AllMarks(lines))|
    requires AnglesSoFar(Flatten(AllMarks(lines)), p, Offset(lines, n + 1), rest)
    ensures !AnglesFrom(Flatten(AllMarks(lines)), p + 1, ['<']).At?
  {
    hide AnglesFrom, Flatten, AllMarks;
    if rest.Some? {
      AngleEnd(lines, p, rest);
    }
  }

  /** Results of a line scan lie in the line. */
  lemma {:induction false} LineResult(line: string, i: nat, stack: seq<char>)
    requires i <= |line|
    ensures var (e, st) := ForwardLine(line, i, stack);
            (e == -1 || i < e <= |line|) && (st.Some? ==> e == -1)
    decreases |line| - i
  {
    hide ForwardChar;
    if i == |line| || !ForwardChar(line, i, stack).More? {
    } else {
      LineResult(line, i + 1, ForwardChar(line, i, stack).stack);
    }
  }

  lemma WholeText(lines: seq<string>)
    ensures Offset(lines, |lines|) == |Flatten(lines)|
  {
    assert lines[..|lines|] == lines;
  }

  lemma ScanEnds(text: string, stack: seq<char>)
    ensures ScanForward(text, |text|, stack) == Open(stack) == ScanBackward(text, 0, stack)
  {
  }

  lemma {:induction false} BackwardResult(line: string, i: nat, stack: seq<char>)
    requires i <= |line|
    ensures var (b, st) := BackwardLine(line, i, stack);
            (b == -1 || 0 <= b < i) && (st.Some? ==> b == -1)
    decreases i
  {
    hide BackwardChar, EndsInOperator;
    if i == 0 || !BackwardChar(line, i - 1, stack).More? {
    } else {
      BackwardResult(line, if TakesTwo(line, i - 1) then i - 2 else i - 1, BackwardChar(line, i - 1, stack).stack);
    }
  }

  ghost predicate BackAnglesSoFar(w: string, e: nat, at: nat, rest: Option<seq<char>>)
    requires e < |w|
  {
    match rest
    case Some(s) => at <= |w| && s != [] && AnglesBefore(w, e, ['>']) == AnglesBefore(w, at, s)
    case None => AnglesBefore(w, e, ['>']) == Failed
  }

  lemma BackMarkedLine(lines: seq<string>, n: nat, pos: nat, k: nat)
    requires k <= n < |lines| && pos < |lines[n]|
    ensures var m := MarksUpTo(lines, n, pos);
            LineAt(Flatten(m), Offset(lines, k), m[k])
            && Offset(lines, n) + pos + 1 == |Flatten(m)|
  {
    var m := MarksUpTo(lines, n, pos);
    SameOffsets(lines, m, k);
    SameOffsets(lines, m, n);
    LineInText(m, k);
    LineInText(m, n);
    WholeText(m);
  }

  lemma BackAngleStart(lines: seq<string>, n: nat, pos: nat)
    requires n < |lines| && pos < |lines[n]| && lines[n][pos] == '>' && !IgnoredGreater(lines[n], pos)
    ensures var w, e, off := Flatten(MarksUpTo(lines, n, pos)), Offset(lines, n) + pos, Offset(lines, n);
            var (b, st) := BackwardLine(lines[n], pos + 1, []);
            && |w| == e + 1 && w[e] == '>' && (b > -1 ==> AnglesBefore(w, e, ['>']) == At(off + b))
            && (b == -1 ==> BackAnglesSoFar(w, e, off, st))
  {
    hide AnglesBefore, LineAt, Flatten, IgnoredGreater;
    var line, m := lines[n], BackMarks(lines[n], pos + 1);
    var w := Flatten(MarksUpTo(lines, n, pos));
    BackMarkedLine(lines, n, pos, n);
    assert !TakesTwo(line, pos) && m == BackMarks(line, pos) + ['>'];
    hide BackMarks, TakesTwo;
    CharAt(w, Offset(lines, n), m, pos);
    BackFirst(line, pos);
    FrontLineAt(w, Offset(lines, n), m, BackMarks(line, pos));
    BackwardLineMarks(w, Offset(lines, n), line, pos, ['>']);
    BackwardResult(line, pos, ['>']);
  }

  lemma BackFirst(line: string, pos: nat)
    requires pos < |line| && line[pos] == '>' && !TakesTwo(line, pos)
    ensures BackwardLine(line, pos + 1, []) == BackwardLine(line, pos, ['>'])
  {
    hide TakesTwo;
    assert BackwardChar(line, pos, []) == More([] + ['>']);
    assert [] + ['>'] == ['>'];
  }

  lemma BackAngleNext(lines: seq<string>, n: nat, pos: nat, k: nat, e: nat, stack: seq<char>)
    requires k < n < |lines| && pos < |lines[n]| && e < |Flatten(MarksUpTo(lines, n, pos))|
    requires BackAnglesSoFar(Flatten(MarksUpTo(lines, n, pos)), e, Offset(lines, k + 1), Some(stack))
    ensures var w := Flatten(MarksUpTo(lines, n, pos));
            var (b, st) := BackwardLine(lines[k], |lines[k]|, stack);
            && (b > -1 ==> AnglesBefore(w, e, ['>']) == At(Offset(lines, k) + b))
            && (b == -1 ==> BackAnglesSoFar(w, e, Offset(lines, k), st))
  {
    hide AnglesBefore, LineAt, Flatten, BackMarks;
    BackMarkedLine(lines, n, pos, k);
    LineInText(lines, k);
    assert MarksUpTo(lines, n, pos)[k] == BackMarks(lines[k], |lines[k]|);
    BackwardLineMarks(Flatten(MarksUpTo(lines, n, pos)), Offset(lines, k), lines[k], |lines[k]|, stack);
    BackwardResult(lines[k], |lines[k]|, stack);
  }

  /** What a search from the angle bracket at e found, or that it found nothing. */
  ghost predicate AngleOpenerFound(w: string, p: int, e: nat) {
    if p >= 0 then AngleCloses(w, p, e) else forall q :: !AngleCloses(w, q, e)
  }

  lemma BackAngleAnswer(lines: seq<string>, n: nat, pos: nat, p: int, e: nat)
    requires n < |lines| && pos < |lines[n]| && e < |Flatten(MarksUpTo(lines, n, pos))|
    requires Flatten(MarksUpTo(lines, n, pos))[e] == '>'
    requires var r := AnglesBefore(Flatten(MarksUpTo(lines, n, pos)), e, ['>']); if p >= 0 then r == At(p) else !r.At?
    ensures AngleOpenerFound(Flatten(MarksUpTo(lines, n, pos)), p, e)
  {
    hide AnglesBefore, BackMarks;
    var m := MarksUpTo(lines, n, pos);
    forall k | 0 <= k < |m| ensures SHIFT !in m[k] {
      NoShift(lines[k], if k == n then pos + 1 else |lines[k]|);
    }
    NoShiftInText(m);
    hide Flatten, AngleCloses, MarksUpTo;
    forall q: nat ensures AnglesBefore(Flatten(m), e, ['>']) == At(q) <==> AngleCloses(Flatten(m), q, e) {
      FindsAngleOpener(Flatten(m), q, e);
    }
  }

  lemma BackAngleFailed(lines: seq<string>, w: string, k: nat, e: nat, rest: Option<seq<char>>)
    requires k < |lines| && (rest.None? || k == 0) && e < |w| && BackAnglesSoFar(w, e, Offset(lines, k), rest)
    ensures !AnglesBefore(w, e, ['>']).At?
  {
    NoText(lines);
  }

  /** For every closer ) ] }, finds the position of the bracket it closes, and reports (0, -1) exactly when it
      closes nothing. From a '>' that is not part of "->", " >= " or "operator >", the same with the angle bracket it
      closes. */
  method ReverseCloseExpression(lines: seq<string>, linenum0: nat, pos: nat) returns (linenum: nat, startPos: int)
    requires linenum0 < |lines| && pos < |lines[linenum0]|
    ensures startPos >= 0 ==> linenum < |lines| && startPos < |lines[linenum]|
    ensures startPos < 0 ==> startPos == -1 && linenum == 0
    ensures IsCloser(lines[linenum0][pos]) ==>
              var e := Offset(lines, linenum0) + pos;
              if startPos >= 0 then Closes(Flatten(lines), Offset(lines, linenum) + startPos, e)
              else forall p :: !Closes(Flatten(lines), p, e)
    ensures !IsCloser(lines[linenum0][pos]) && lines[linenum0][pos] != '>' ==> startPos == -1
    ensures lines[linenum0][pos] == '>' && !IgnoredGreater(lines[linenum0], pos) ==>
              AngleOpenerFound(Flatten(MarksUpTo(lines, linenum0, pos)),
                               if startPos >= 0 then Offset(lines, linenum) + startPos else -1,
                               Offset(lines, linenum0) + pos)
  {
    hide Closes, Flatten, BackwardLine, ScanBackward, LineAt, MarksUpTo, AnglesBefore, BackAnglesSoFar,
         AngleOpenerFound, IgnoredGreater;
    ghost var text, e := Flatten(lines), Offset(lines, linenum0) + pos;
    ghost var w := Flatten(MarksUpTo(lines, linenum0, pos));
    ghost var close := IsCloser(lines[linenum0][pos]);
    ghost var angle := lines[linenum0][pos] == '>' && !IgnoredGreater(lines[linenum0], pos);
    linenum := linenum0;
    LineInText(lines, linenum);
    var line := lines[linenum];
    if !(IsCloser(line[pos]) || line[pos] == '>') {
      return 0, -1;
    }
    var rest;
    startPos, rest := FindStartOfExpressionInLine(line, pos, []);
    if close {
      BackwardStart(text, Offset(lines, linenum), line, pos);
      BackwardLineAgrees(text, Offset(lines, linenum), line, pos, [line[pos]]);
      forall p ensures ScanBackward(text, e + 1, []) == At(p) <==> Closes(text, p, e) {
        BackwardFindsOpener(text, p, e);
      }
    }
    BackwardResult(line, pos + 1, []);
    if angle {
      BackAngleStart(lines, linenum, pos);
    }
    if startPos > -1 {
      if angle {
        BackAngleAnswer(lines, linenum0, pos, Offset(lines, linenum) + startPos, e);
      }
      return linenum, startPos;
    }
    while rest.Some? && rest.value != [] && linenum > 0
      invariant linenum <= linenum0
      invariant startPos == -1
      invariant close ==> e < |text| && BackwardSoFar(text, e + 1, Offset(lines, linenum), rest)
      invariant angle ==> e < |w| && w[e] == '>' && BackAnglesSoFar(w, e, Offset(lines, linenum), rest)
      decreases linenum
    {
      linenum := linenum - 1;
      line := lines[linenum];
      LineInText(lines, linenum);
      if close {
        BackwardLineAgrees(text, Offset(lines, linenum), line, |line|, rest.value);
      }
      if angle {
        BackAngleNext(lines, linenum0, pos, linenum, e, rest.value);
      }
      BackwardResult(line, |line|, rest.value);
      startPos, rest := FindStartOfExpressionInLine(line, |line| - 1, rest.value);
      if startPos > -1 {
        if angle {
          BackAngleAnswer(lines, linenum0, pos, Offset(lines, linenum) + startPos, e);
        }
        return linenum, startPos;
      }
    }
    if close && rest.Some? {
      NoText(lines);
      ScanEnds(text, Plain(rest.value, '>'));
    }
    if angle {
      BackNeverEmpty(w, e, Offset(lines, linenum), rest);
      BackAngleFailed(lines, w, linenum, e, rest);
      BackAngleAnswer(lines, linenum0, pos, -1, e);
    }
    return 0, -1;
  }

  lemma BackNeverEmpty(w: string, e: nat, at: nat, rest: Option<seq<char>>)
    requires e < |w| && BackAnglesSoFar(w, e, at, rest)
    ensures rest.Some? ==> rest.value != []
  {
  }

  lemma NoText(lines: seq<string>)
    ensures Offset(lines, 0) == 0
  {
    assert lines[..0] == [];
  }

  /** Forward and backward search undo each other: a bracket closes at most one and is closed by at most one. */
  lemma ClosesOneToOne(text: string, p: nat, e: nat, p': nat, e': nat)
    requires Closes(text, p, e) && Closes(text, p', e')
    ensures p == p' <==> e == e'
  {
    hide Balanced;
    ForwardFindsCloser(text, p, e);
    ForwardFindsCloser(text, p', e');
    BackwardFindsOpener(text, p, e);
    BackwardFindsOpener(text, p', e');
  }

  lemma {:induction false} OffsetsGrow(lines: seq<string>, a: nat, b: nat)
    requires a < b <= |lines|
    ensures Offset(lines, a) + |lines[a]| <= Offset(lines, b)
  {
    hide Flatten;
    if b == a + 1 {
      LineInText(lines, a);
    } else {
      OffsetsGrow(lines, a, b - 1);
      LineInText(lines, b - 1);
    }
  }

  /** Line and column are determined by the position in the text. */
  lemma PositionsAreUnique(lines: seq<string>, a: nat, i: nat, b: nat, j: nat)
    requires a < |lines| && b < |lines| && i < |lines[a]| && j < |lines[b]|
    requires Offset(lines, a) + i == Offset(lines, b) + j
    ensures a == b && i == j
  {
    if a < b {
      OffsetsGrow(lines, a, b);
    } else if b < a {
      OffsetsGrow(lines, b, a);
    }
  }

  lemma OpenerCloses(text: string, p: nat, e: nat)
    requires Closes(text, p, e)
    ensures IsOpener(text[p]) && IsCloser(text[e])
    ensures (text[p], text[e]) == ('(', ')') || (text[p], text[e]) == ('[', ']') || (text[p], text[e]) == ('{', '}')
  {
  }

  /** Searching back from the closer that CloseExpression finds leads to the opener it started from. */
  method CloseThenReverse(lines: seq<string>, linenum: nat, pos: nat) returns (found: bool, back: nat, start: int)
    requires linenum < |lines| && pos < |lines[linenum]| && IsOpener(lines[linenum][pos])
    ensures var p := Offset(lines, linenum) + pos; found <==> exists e :: Closes(Flatten(lines), p, e)
    ensures found ==> back == linenum && start == pos
  {
    hide Closes, Flatten;
    var endLine, endPos := CloseExpression(lines, linenum, pos);
    found, back, start := endPos >= 0, 0, -1;
    if found {
      ghost var text, p, e := Flatten(lines), Offset(lines, linenum) + pos, Offset(lines, endLine) + endPos - 1;
      LineInText(lines, endLine);
      CharAt(text, Offset(lines, endLine), lines[endLine], endPos - 1);
      InRange(text, p, e);
      OpenerCloses(text, p, e);
      back, start := ReverseCloseExpression(lines, endLine, endPos - 1);
      ghost var p' := Offset(lines, back) + start;
      ClosesOneToOne(text, p, e, p', e);
      PositionsAreUnique(lines, back, start, linenum, pos);
    }
  }

  lemma InRange(text: string, p: nat, e: nat)
    requires Closes(text, p, e)
    ensures p < e < |text|
  {
  }
}
