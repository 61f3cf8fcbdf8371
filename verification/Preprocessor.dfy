/** cpplint's nesting stack across preprocessor branches. */
module Preprocessor {

  /** What the three regular expressions of UpdatePreprocessor tell apart. */
  datatype Kind = If | Else | Endif | Plain

  datatype Info<F> = Info(stackBeforeIf: seq<F>, stackBeforeElse: seq<F>, seenElse: bool)

  datatype State<F> = State(stack: seq<F>, pps: seq<Info<F>>)

  function Top<F>(pps: seq<Info<F>>): Info<F>
    requires pps != []
  {
    pps[|pps| - 1]
  }

  /** UpdatePreprocessor. */
  function Branch<F>(k: Kind, s: State<F>): State<F> {
    match k
    case If => s.(pps := s.pps + [Info(s.stack, [], false)])
    case Else =>
      if s.pps == [] then s
      else
        var t := Top(s.pps);
        var t' := if t.seenElse then t else t.(seenElse := true, stackBeforeElse := s.stack);
        State(t.stackBeforeIf, s.pps[|s.pps| - 1 := t'])
    case Endif =>
      if s.pps == [] then s
      else State(if Top(s.pps).seenElse then Top(s.pps).stackBeforeElse else s.stack, s.pps[..|s.pps| - 1])
    case Plain => s
  }

  /** A file: how a line is classified, and what the rest of Update does to the stack on it. */
  datatype Rules<!L, !F> = Rules(kind: L -> Kind, update: (L, seq<F>) -> seq<F>)

  /** Update. */
  function Line<L, F>(r: Rules<L, F>, x: L, s: State<F>): State<F> {
    var b := Branch(r.kind(x), s);
    b.(stack := r.update(x, b.stack))
  }

  function Run<L, F>(r: Rules<L, F>, lines: seq<L>): State<F> {
    if lines == [] then State([], [])
    else Line(r, lines[|lines| - 1], Run(r, lines[..|lines| - 1]))
  }

  // Deleting the branches not taken, from the text alone.

  /** For every open #if, whether an #else or #elif of it was seen. */
  function Flags<L, F>(r: Rules<L, F>, lines: seq<L>): seq<bool> {
    if lines == [] then []
    else NextFlags(r.kind(lines[|lines| - 1]), Flags(r, lines[..|lines| - 1]))
  }

  function NextFlags(k: Kind, flags: seq<bool>): seq<bool> {
    match k
    case If => flags + [false]
    case Else => if flags == [] then [] else flags[|flags| - 1 := true]
    case Endif => if flags == [] then [] else flags[..|flags| - 1]
    case Plain => flags
  }

  /** The text as it would be with everything from the first #else or #elif of an #if up to its #endif deleted:
      a line stays when, after it, no open #if has seen an #else. */
  function Pruned<L, F>(r: Rules<L, F>, lines: seq<L>): seq<L> {
    if lines == [] then []
    else
      var front := lines[..|lines| - 1];
      Pruned(r, front) + if true !in Flags(r, lines) then [lines[|lines| - 1]] else []
  }

  /** The outermost open #if that has seen an #else, or the number of open #ifs. */
  function FirstSeen<F>(pps: seq<Info<F>>): (j: nat)
    ensures j <= |pps| && (j < |pps| ==> pps[j].seenElse)
    ensures forall i :: 0 <= i < j ==> !pps[i].seenElse
  {
    if pps == [] then 0
    else
      var j := FirstSeen(pps[..|pps| - 1]);
      if j < |pps| - 1 || pps[|pps| - 1].seenElse then j else |pps|
  }

  lemma FirstSeenIs<F>(pps: seq<Info<F>>, j: nat)
    requires j <= |pps| && (j < |pps| ==> pps[j].seenElse) && forall i :: 0 <= i < j ==> !pps[i].seenElse
    ensures FirstSeen(pps) == j
  {
  }

  /** The state just before the #else of that #if; the state itself when there is none. */
  function Collapse<F>(s: State<F>): State<F> {
    var j := FirstSeen(s.pps);
    if j == |s.pps| then s
    else State(s.pps[j].stackBeforeElse, s.pps[..j] + [Info(s.pps[j].stackBeforeIf, [], false)])
  }

  ghost predicate Fresh<F>(s: State<F>) {
    forall i :: 0 <= i < |s.pps| && !s.pps[i].seenElse ==> s.pps[i].stackBeforeElse == []
  }

  function SeenFlags<F>(pps: seq<Info<F>>): seq<bool> {
    seq(|pps|, i requires 0 <= i < |pps| => pps[i].seenElse)
  }

  lemma BranchKeeps<F>(k: Kind, s: State<F>)
    requires Fresh(s)
    ensures Fresh(Branch(k, s)) && SeenFlags(Branch(k, s).pps) == NextFlags(k, SeenFlags(s.pps))
  {
  }

  /** While an #else is open, only its #endif ends the deleting. */
  lemma DeletingGoesOn<F>(k: Kind, s: State<F>)
    requires FirstSeen(s.pps) < |s.pps| && !(k.Endif? && FirstSeen(s.pps) == |s.pps| - 1)
    ensures var b := Branch(k, s);
            FirstSeen(b.pps) < |b.pps| && forall stack :: Collapse(b.(stack := stack)) == Collapse(s)
  {
    hide FirstSeen;
    var b, j := Branch(k, s), FirstSeen(s.pps);
    FirstSeenIs(b.pps, j);
    assert b.pps[..j] == s.pps[..j];
  }

  lemma DeletingEnds<F>(s: State<F>)
    requires Fresh(s) && s.pps != [] && FirstSeen(s.pps) == |s.pps| - 1
    ensures var b := Branch(Endif, s); FirstSeen(b.pps) == |b.pps| && Branch(Endif, Collapse(s)) == b
  {
    hide FirstSeen;
    var b, j := Branch(Endif, s), FirstSeen(s.pps);
    FirstSeenIs(b.pps, j);
    assert (s.pps[..j] + [Info(s.pps[j].stackBeforeIf, [], false)])[..j] == s.pps[..j];
  }

  lemma DeletingStarts<F>(s: State<F>)
    requires Fresh(s) && s.pps != [] && FirstSeen(s.pps) == |s.pps|
    ensures var b := Branch(Else, s);
            FirstSeen(b.pps) < |b.pps| && forall stack :: Collapse(b.(stack := stack)) == Collapse(s)
  {
    hide FirstSeen;
    var b, last := Branch(Else, s), |s.pps| - 1;
    FirstSeenIs(b.pps, last);
    assert s.pps == s.pps[..last] + [Top(s.pps)] && b.pps[..last] == s.pps[..last];
  }

  /** A line that stays does the same after collapsing; a deleted line does nothing there. */
  lemma BranchCollapses<F>(k: Kind, s: State<F>)
    requires Fresh(s)
    ensures var b := Branch(k, s);
            if FirstSeen(b.pps) == |b.pps| then Branch(k, Collapse(s)) == b
            else forall stack :: Collapse(b.(stack := stack)) == Collapse(s)
  {
    hide FirstSeen;
    var b, j := Branch(k, s), FirstSeen(s.pps);
    if j < |s.pps| && !(k.Endif? && j == |s.pps| - 1) {
      DeletingGoesOn(k, s);
    } else if j < |s.pps| {
      DeletingEnds(s);
    } else if k.Else? && s.pps != [] {
      DeletingStarts(s);
    } else {
      FirstSeenIs(b.pps, |b.pps|);
    }
  }

  lemma NoneSeen<F>(pps: seq<Info<F>>)
    ensures true !in SeenFlags(pps) <==> FirstSeen(pps) == |pps|
  {
    if FirstSeen(pps) < |pps| {
      assert SeenFlags(pps)[FirstSeen(pps)];
    }
  }

  /** For every file, every classification of its lines and every per-line update of the stack: the pruned file
      leaves the state the whole file had before the first #else still open. */
  lemma {:induction false} PrunedRun<L, F>(r: Rules<L, F>, lines: seq<L>)
    ensures Run(r, Pruned(r, lines)) == Collapse(Run(r, lines))
    ensures Fresh(Run(r, lines)) && SeenFlags(Run(r, lines).pps) == Flags(r, lines)
  {
    if lines == [] {
    } else {
      var front, x := lines[..|lines| - 1], lines[|lines| - 1];
      var s := Run(r, front);
      PrunedRun(r, front);
      BranchKeeps(r.kind(x), s);
      BranchCollapses(r.kind(x), s);
      NoneSeen(Branch(r.kind(x), s).pps);
      if true !in Flags(r, lines) {
        assert Pruned(r, lines)[..|Pruned(r, front)|] == Pruned(r, front);
        assert Run(r, Pruned(r, lines)) == Line(r, x, Collapse(s));
      } else {
        assert Pruned(r, lines) == Pruned(r, front);
      }
    }
  }

  /** When every #if that has an #else is closed, as in a well-nested file, the nesting stack is that of the file
      without the branches after the first. */
  lemma BranchesDoNotMatter<L, F>(r: Rules<L, F>, lines: seq<L>)
    requires true !in Flags(r, lines)
    ensures Run(r, Pruned(r, lines)) == Run(r, lines)
  {
    PrunedRun(r, lines);
    NoneSeen(Run(r, lines).pps);
  }

  /** From an #else that was reached until its #endif, that is while the #if stays open, every line is deleted. */
  lemma {:induction false} DeletedUpToEndif<L, F>(r: Rules<L, F>, before: seq<L>, region: seq<L>, n: nat)
    requires |Flags(r, before)| == n + 1 && Flags(r, before)[n]
    requires forall k :: 0 <= k <= |region| ==> |Flags(r, before + region[..k])| > n
    ensures Pruned(r, before + region) == Pruned(r, before)
    ensures |Flags(r, before + region)| > n && Flags(r, before + region)[n]
  {
    if region == [] {
      assert before + region == before;
    } else {
      var front := region[..|region| - 1];
      forall k | 0 <= k <= |front| ensures |Flags(r, before + front[..k])| > n {
        assert front[..k] == region[..k];
      }
      DeletedUpToEndif(r, before, front, n);
      var all := before + region;
      assert all[..|all| - 1] == before + front;
      assert region[..|region|] == region && front[..|front|] == front;
      assert |Flags(r, before + front[..|front|])| > n && |Flags(r, before + region[..|region|])| > n;
      assert Flags(r, all)[n];
    }
  }

  // The stack on each kind of line.

  /** On any line but a directive, on an #if, on an #endif of an #if without #else, and on a directive that belongs to
      no #if, Update starts from the stack of the line before. */
  lemma StackGoesOn<L, F>(r: Rules<L, F>, lines: seq<L>, y: L)
    requires r.kind(y).Plain? || r.kind(y).If? || Flags(r, lines) == []
             || (r.kind(y).Endif? && !Flags(r, lines)[|Flags(r, lines)| - 1])
    ensures Run(r, lines + [y]).stack == r.update(y, Run(r, lines).stack)
  {
    OpenIfs(r, lines);
    LastLine(r, lines, y);
    hide Run, Flags, Fresh;
    BranchGoesOn(r.kind(y), Run(r, lines));
  }

  lemma LastLine<L, F>(r: Rules<L, F>, lines: seq<L>, y: L)
    ensures Run(r, lines + [y]) == Line(r, y, Run(r, lines))
  {
    assert (lines + [y])[..|lines|] == lines;
  }

  lemma BranchGoesOn<F>(k: Kind, s: State<F>)
    requires k.Plain? || k.If? || s.pps == [] || (k.Endif? && !Top(s.pps).seenElse)
    ensures Branch(k, s).stack == s.stack
  {
  }

  lemma OpenIfs<L, F>(r: Rules<L, F>, lines: seq<L>)
    ensures |Run(r, lines).pps| == |Flags(r, lines)|
    ensures forall i :: 0 <= i < |Flags(r, lines)| ==> Flags(r, lines)[i] == Run(r, lines).pps[i].seenElse
  {
    PrunedRun(r, lines);
  }

  lemma KeepsIf<F>(k: Kind, s: State<F>, n: nat)
    requires n < |s.pps| && n < |Branch(k, s).pps|
    ensures Branch(k, s).pps[n].stackBeforeIf == s.pps[n].stackBeforeIf
  {
  }

  /** While an #if stays open, the stack from before it is kept. */
  lemma {:induction false} StackBeforeIfKept<L, F>(r: Rules<L, F>, before: seq<L>, x: L, region: seq<L>, n: nat)
    requires r.kind(x).If? && n == |Flags(r, before)|
    requires forall k :: 0 <= k <= |region| ==> |Flags(r, before + [x] + region[..k])| > n
    ensures |Run(r, before + [x] + region).pps| > n
    ensures Run(r, before + [x] + region).pps[n].stackBeforeIf == Run(r, before).stack
  {
    OpenIfs(r, before);
    if region == [] {
      assert before + [x] + region == before + [x];
      LastLine(r, before, x);
      hide Flags;
    } else {
      var front, last := region[..|region| - 1], region[|region| - 1];
      forall k | 0 <= k <= |front| ensures |Flags(r, before + [x] + front[..k])| > n {
        assert front[..k] == region[..k];
      }
      hide Run, Flags;
      StackBeforeIfKept(r, before, x, front, n);
      var all := before + [x] + region;
      assert all == before + [x] + front + [last];
      LastLine(r, before + [x] + front, last);
      assert region[..|region|] == region;
      OpenIfs(r, all);
      KeepsIf(r.kind(last), Run(r, before + [x] + front), n);
    }
  }

  /** On every #else and #elif of an #if, Update starts again from the stack before that #if, whatever the lines in
      between did. */
  lemma ElseRestores<L, F>(r: Rules<L, F>, before: seq<L>, x: L, region: seq<L>, y: L)
    requires r.kind(x).If? && r.kind(y).Else?
    requires forall k :: 0 <= k <= |region| ==> |Flags(r, before + [x] + region[..k])| > |Flags(r, before)|
    requires |Flags(r, before + [x] + region)| == |Flags(r, before)| + 1
    ensures Run(r, before + [x] + region + [y]).stack == r.update(y, Run(r, before).stack)
  {
    var n, all := |Flags(r, before)|, before + [x] + region;
    StackBeforeIfKept(r, before, x, region, n);
    OpenIfs(r, all);
    LastLine(r, all, y);
    hide Run, Flags;
  }

  lemma KeepsElse<F>(k: Kind, s: State<F>, n: nat)
    requires n < |s.pps| && n < |Branch(k, s).pps| && s.pps[n].seenElse
    ensures Branch(k, s).pps[n].seenElse && Branch(k, s).pps[n].stackBeforeElse == s.pps[n].stackBeforeElse
  {
  }

  /** While it stays open after its first #else, the stack from before that #else is kept. */
  lemma {:induction false} StackBeforeElseKept<L, F>(r: Rules<L, F>, before: seq<L>, y: L, region: seq<L>, n: nat)
    requires r.kind(y).Else? && |Flags(r, before)| == n + 1 && !Flags(r, before)[n]
    requires forall k :: 0 <= k <= |region| ==> |Flags(r, before + [y] + region[..k])| > n
    ensures var pps := Run(r, before + [y] + region).pps;
            |pps| > n && pps[n].seenElse && pps[n].stackBeforeElse == Run(r, before).stack
  {
    OpenIfs(r, before);
    if region == [] {
      assert before + [y] + region == before + [y];
      LastLine(r, before, y);
      hide Flags;
    } else {
      var front, last := region[..|region| - 1], region[|region| - 1];
      forall k | 0 <= k <= |front| ensures |Flags(r, before + [y] + front[..k])| > n {
        assert front[..k] == region[..k];
      }
      hide Run, Flags;
      StackBeforeElseKept(r, before, y, front, n);
      var all := before + [y] + region;
      assert all == before + [y] + front + [last];
      LastLine(r, before + [y] + front, last);
      assert region[..|region|] == region;
      OpenIfs(r, all);
      KeepsElse(r.kind(last), Run(r, before + [y] + front), n);
    }
  }

  /** On the #endif of an #if with #else, Update goes on from the stack at the first #else, whatever came between. */
  lemma EndifRestores<L, F>(r: Rules<L, F>, before: seq<L>, y: L, region: seq<L>, z: L)
    requires r.kind(y).Else? && r.kind(z).Endif? && Flags(r, before) != [] && !Flags(r, before)[|Flags(r, before)| - 1]
    requires forall k :: 0 <= k <= |region| ==> |Flags(r, before + [y] + region[..k])| >= |Flags(r, before)|
    requires |Flags(r, before + [y] + region)| == |Flags(r, before)|
    ensures Run(r, before + [y] + region + [z]).stack == r.update(z, Run(r, before).stack)
  {
    var n, all := |Flags(r, before)| - 1, before + [y] + region;
    StackBeforeElseKept(r, before, y, region, n);
    OpenIfs(r, all);
    LastLine(r, all, z);
    hide Run, Flags;
  }

  class NestingState<L, F> {
    const rules: Rules<L, F>
    var stack: seq<F>
    var ppStack: seq<Info<F>>

    function View(): State<F>
      reads this
    {
      State(stack, ppStack)
    }

    constructor (rules: Rules<L, F>)
      ensures View() == Run(rules, []) && this.rules == rules
    {
      this.rules, stack, ppStack := rules, [], [];
    }

    method UpdatePreprocessor(line: L)
      modifies this
      ensures View() == Branch(rules.kind(line), old(View()))
    {
      var kind := rules.kind(line);
      if kind == If {
        ppStack := ppStack + [Info(stack, [], false)];
      } else if kind == Else {
        if ppStack != [] {
          var last := |ppStack| - 1;
          if !ppStack[last].seenElse {
            ppStack := ppStack[last := ppStack[last].(seenElse := true)];
            ppStack := ppStack[last := ppStack[last].(stackBeforeElse := stack)];
          }
          stack := ppStack[last].stackBeforeIf;
        }
      } else if kind == Endif {
        if ppStack != [] {
          if Top(ppStack).seenElse {
            stack := Top(ppStack).stackBeforeElse;
          }
          ppStack := ppStack[..|ppStack| - 1];
        }
      }
    }

    /** Reads one more line. */
    method Update(line: L, ghost before: seq<L>)
      requires View() == Run(rules, before)
      modifies this
      ensures View() == Run(rules, before + [line])
      ensures Collapse(View()) == Run(rules, Pruned(rules, before + [line]))
    {
      UpdatePreprocessor(line);
      stack := rules.update(line, stack);
      assert (before + [line])[..|before|] == before;
      PrunedRun(rules, before + [line]);
    }
  }
}
