/** `scan_keyword` of date.h: reads the longest run of characters that can still become a keyword. */
module KeywordScanner {
  import opened Options

  datatype Status = DoesntMatch | MightMatch | DoesMatch

  class InputStream {
    var text: string
    var pos: nat
    var eofbit: bool
    var failbit: bool

    constructor (text: string)
      ensures this.text == text && pos == 0 && !eofbit && !failbit
    {
      this.text, pos, eofbit, failbit := text, 0, false, false;
    }

    ghost predicate Valid()
      reads this
    {
      pos <= |text|
    }

    ghost function Rest(): string
      requires Valid()
      reads this
    {
      text[pos..]
    }

    ghost predicate Good()
      reads this
    {
      !eofbit && !failbit
    }

    /** `peek`: a stream that is not good fails, and the end of the text is noted. */
    method Peek() returns (c: Option<char>)
      requires Valid()
      modifies this`eofbit, this`failbit
      ensures c == if old(Good()) && pos < |text| then Some(text[pos]) else None
      ensures eofbit == (old(eofbit) || (old(Good()) && pos == |text|))
      ensures failbit == (old(failbit) || !old(Good()))
    {
      if eofbit || failbit {
        failbit := true;
        return None;
      }
      if pos == |text| {
        eofbit := true;
        return None;
      }
      return Some(text[pos]);
    }
  }

  /** s is a prefix of kw when case, as `upper` sees it, is ignored. */
  ghost predicate PrefixOf(upper: char -> char, s: string, kw: string) {
    |s| <= |kw| && forall i :: 0 <= i < |s| ==> upper(s[i]) == upper(kw[i])
  }

  ghost predicate Matches(upper: char -> char, s: string, kw: string) {
    |s| == |kw| && PrefixOf(upper, s, kw)
  }

  ghost predicate StartsSome(upper: char -> char, s: string, kws: seq<string>) {
    exists k :: 0 <= k < |kws| && PrefixOf(upper, s, kws[k])
  }

  /** n characters of s start some keyword (or n is 0), and no more do. */
  ghost predicate Longest(upper: char -> char, s: string, kws: seq<string>, n: nat) {
    n <= |s| && (n == 0 || StartsSome(upper, s[..n], kws))
    && forall m :: n < m <= |s| ==> !StartsSome(upper, s[..m], kws)
  }

  ghost function Count(st: seq<Status>, v: Status): nat {
    if st == [] then 0 else Count(st[..|st| - 1], v) + if st[|st| - 1] == v then 1 else 0
  }

  /** Changing one status moves one unit between the counters. */
  lemma {:induction false} CountUpdate(st: seq<Status>, i: nat, x: Status, v: Status)
    requires i < |st|
    ensures Count(st[i := x], v) == Count(st, v) - (if st[i] == v then 1 else 0) + if x == v then 1 else 0
  {
    var last := |st| - 1;
    if i == last {
      assert st[i := x][..last] == st[..last];
    } else {
      assert st[i := x][..last] == st[..last][i := x];
      CountUpdate(st[..last], i, x, v);
    }
  }

  /** A counter is positive exactly when some keyword has its status. */
  lemma {:induction false} CountPositive(st: seq<Status>, v: Status)
    ensures Count(st, v) > 0 <==> v in st
  {
    if st == [] {
    } else {
      CountPositive(st[..|st| - 1], v);
      assert st == st[..|st| - 1] + [st[|st| - 1]];
    }
  }

  /** Two keywords still in play make the counters add up to two. */
  lemma {:induction false} TwoInPlay(st: seq<Status>, i: nat, j: nat)
    requires i < j < |st| && st[i] != DoesntMatch && st[j] != DoesntMatch
    ensures Count(st, MightMatch) + Count(st, DoesMatch) >= 2
  {
    var front := st[..|st| - 1];
    if j < |st| - 1 {
      TwoInPlay(front, i, j);
    } else {
      CountPositive(front, st[i]);
      assert front[i] == st[i];
    }
  }

  ghost predicate CountersAgree(st: seq<Status>, might: nat, does: nat) {
    might == Count(st, MightMatch) && does == Count(st, DoesMatch)
  }

  lemma Recount(st: seq<Status>, i: nat, x: Status, might: nat, does: nat)
    requires i < |st| && CountersAgree(st, might, does)
    ensures Count(st, st[i]) > 0
    ensures st[i] == MightMatch && x == DoesMatch ==> CountersAgree(st[i := x], might - 1, does + 1)
    ensures st[i] == MightMatch && x == DoesntMatch ==> CountersAgree(st[i := x], might - 1, does)
    ensures st[i] == DoesMatch && x == DoesntMatch ==> CountersAgree(st[i := x], might, does - 1)
  {
    CountPositive(st, st[i]);
    CountUpdate(st, i, x, MightMatch);
    CountUpdate(st, i, x, DoesMatch);
  }

  /** The status of a keyword once the characters s are consumed and nothing more was looked at. */
  ghost function StatusAfter(upper: char -> char, s: string, kw: string): Status {
    if !PrefixOf(upper, s, kw) then DoesntMatch
    else if |kw| == |s| then DoesMatch
    else MightMatch
  }

  /** The status of a keyword after the next character c was compared but nothing was reset. */
  ghost function StatusCompared(upper: char -> char, s: string, c: char, kw: string): Status {
    if StatusAfter(upper, s, kw) != MightMatch then StatusAfter(upper, s, kw)
    else StatusAfter(upper, s + [c], kw)
  }

  method InitStatus(kws: seq<string>) returns (status: array<Status>, might: nat, does: nat)
    ensures fresh(status) && status.Length == |kws|
    ensures forall upper :: Exact(upper, "", kws, status[..])
    ensures CountersAgree(status[..], might, does)
  {
    status := new Status[|kws|];
    might, does := |kws|, 0;
    var i := 0;
    while i < |kws|
      invariant 0 <= i <= |kws|
      invariant might == |kws| - i + Count(status[..i], MightMatch) && does == Count(status[..i], DoesMatch)
      invariant forall k :: 0 <= k < i ==> status[k] == if kws[k] == "" then DoesMatch else MightMatch
    {
      if kws[i] != "" {
        status[i] := MightMatch;
      } else {
        status[i] := DoesMatch;
        might, does := might - 1, does + 1;
      }
      assert status[..i + 1][..i] == status[..i];
      i := i + 1;
    }
    assert status[..] == status[..i];
  }

  /** The first inner loop: compares every keyword that might match with the next character. */
  method Compare(upper: char -> char, ghost s: string, kws: seq<string>, indx: nat, c: char,
                 status: array<Status>, might0: nat, does0: nat)
    returns (consume: bool, might: nat, does: nat)
    requires indx == |s| && status.Length == |kws|
    requires forall k :: 0 <= k < |kws| ==> status[k] == StatusAfter(upper, s, kws[k])
    requires CountersAgree(status[..], might0, does0)
    modifies status
    ensures forall k :: 0 <= k < |kws| ==> status[k] == StatusCompared(upper, s, c, kws[k])
    ensures consume <==> StartsSome(upper, s + [c], kws)
    ensures CountersAgree(status[..], might, does)
  {
    consume, might, does := false, might0, does0;
    var i := 0;
    while i < |kws|
      invariant 0 <= i <= |kws|
      invariant forall k :: 0 <= k < i ==> status[k] == StatusCompared(upper, s, c, kws[k])
      invariant forall k :: i <= k < |kws| ==> status[k] == StatusAfter(upper, s, kws[k])
      invariant consume <==> exists k :: 0 <= k < i && PrefixOf(upper, s + [c], kws[k])
      invariant CountersAgree(status[..], might, does)
    {
      ghost var st := status[..];
      PrefixExtended(upper, s, c, kws[i]);
      if status[i] == MightMatch {
        if upper(c) == upper(kws[i][indx]) {
          consume := true;
          if |kws[i]| == indx + 1 {
            Recount(st, i, DoesMatch, might, does);
            status[i] := DoesMatch;
            might, does := might - 1, does + 1;
            assert status[..] == st[i := DoesMatch];
          }
        } else {
          Recount(st, i, DoesntMatch, might, does);
          status[i] := DoesntMatch;
          might := might - 1;
          assert status[..] == st[i := DoesntMatch];
        }
      }
      i := i + 1;
    }
  }

  lemma PrefixExtended(upper: char -> char, s: string, c: char, kw: string)
    ensures PrefixOf(upper, s + [c], kw) <==>
            StatusAfter(upper, s, kw) == MightMatch && upper(c) == upper(kw[|s|])
  {
    assert forall i :: 0 <= i < |s| ==> (s + [c])[i] == s[i];
    assert (s + [c])[|s|] == c;
  }

  /** The second inner loop: drops matches that ended before the character just consumed. */
  method DropShorter(kws: seq<string>, indx: nat, status: array<Status>, ghost might: nat, does0: nat)
    returns (does: nat)
    requires status.Length == |kws| && CountersAgree(status[..], might, does0)
    modifies status
    ensures forall k :: 0 <= k < |kws| ==>
              status[k] == if old(status[k]) == DoesMatch && |kws[k]| != indx + 1 then DoesntMatch else old(status[k])
    ensures CountersAgree(status[..], might, does)
  {
    does := does0;
    var i := 0;
    while i < |kws|
      invariant 0 <= i <= |kws|
      invariant forall k :: 0 <= k < i ==>
                  status[k] == if old(status[k]) == DoesMatch && |kws[k]| != indx + 1 then DoesntMatch
                               else old(status[k])
      invariant forall k :: i <= k < |kws| ==> status[k] == old(status[k])
      invariant CountersAgree(status[..], might, does)
    {
      if status[i] == DoesMatch && |kws[i]| != indx + 1 {
        ghost var st := status[..];
        Recount(st, i, DoesntMatch, might, does);
        status[i] := DoesntMatch;
        does := does - 1;
        assert status[..] == st[i := DoesntMatch];
      }
      i := i + 1;
    }
  }

  lemma PrefixShorter(upper: char -> char, s: string, kws: seq<string>, n: nat, m: nat)
    requires n <= m <= |s|
    ensures StartsSome(upper, s[..m], kws) ==> StartsSome(upper, s[..n], kws)
  {
    if k :| 0 <= k < |kws| && PrefixOf(upper, s[..m], kws[k]) {
      assert forall i :: 0 <= i < n ==> s[..n][i] == s[..m][i];
      assert PrefixOf(upper, s[..n], kws[k]);
    }
  }

  /** Without a reset, a match left over from an earlier character would be counted beside the keyword
      that made the character be consumed. */
  lemma NothingStale(upper: char -> char, s: string, c: char, kws: seq<string>, st: seq<Status>)
    requires |st| == |kws| && StartsSome(upper, s + [c], kws)
    requires forall k :: 0 <= k < |kws| ==> st[k] == StatusCompared(upper, s, c, kws[k])
    requires Count(st, MightMatch) + Count(st, DoesMatch) <= 1
    ensures forall k :: 0 <= k < |kws| && st[k] == DoesMatch ==> |kws[k]| == |s| + 1
  {
    var k0 :| 0 <= k0 < |kws| && PrefixOf(upper, s + [c], kws[k0]);
    if StatusAfter(upper, s, kws[k0]) != MightMatch {
      PrefixExtended(upper, s, c, kws[k0]);
    }
    forall k | 0 <= k < |kws| && st[k] == DoesMatch && k != k0
      ensures false
    {
      TwoInPlay(st, if k < k0 then k else k0, if k < k0 then k0 else k);
    }
  }

  ghost predicate Exact(upper: char -> char, s: string, kws: seq<string>, st: seq<Status>) {
    |st| == |kws| && forall k :: 0 <= k < |kws| ==> st[k] == StatusAfter(upper, s, kws[k])
  }

  /** n characters of s are consumed and no keyword can use the next one. */
  ghost predicate Stopped(upper: char -> char, s: string, n: nat, kws: seq<string>, st: seq<Status>) {
    |st| == |kws| && n <= |s|
    && (forall k :: 0 <= k < |kws| ==> (st[k] == DoesMatch <==> Matches(upper, s[..n], kws[k])))
    && (if n < |s| then !StartsSome(upper, s[..n + 1], kws) else MightMatch !in st && Exact(upper, s, kws, st))
  }

  /** With no keyword left that might match, nothing longer starts a keyword. */
  lemma ExactStops(upper: char -> char, s: string, n: nat, kws: seq<string>, st: seq<Status>)
    requires n <= |s| && Exact(upper, s[..n], kws, st) && Count(st, MightMatch) == 0
    ensures Stopped(upper, s, n, kws, st)
  {
    CountPositive(st, MightMatch);
    if n < |s| {
      assert s[..n + 1] == s[..n] + [s[n]];
      forall k | 0 <= k < |kws| ensures !PrefixOf(upper, s[..n + 1], kws[k]) {
        assert st[k] in st;
        PrefixExtended(upper, s[..n], s[n], kws[k]);
      }
    } else {
      assert s[..n] == s;
    }
  }

  /** A character that no keyword accepts leaves only finished matches. */
  lemma RejectStops(upper: char -> char, s: string, n: nat, kws: seq<string>, st: seq<Status>)
    requires n < |s| && |st| == |kws| && !StartsSome(upper, s[..n] + [s[n]], kws)
    requires forall k :: 0 <= k < |kws| ==> st[k] == StatusCompared(upper, s[..n], s[n], kws[k])
    ensures Stopped(upper, s, n, kws, st) && Count(st, MightMatch) == 0
  {
    assert s[..n + 1] == s[..n] + [s[n]];
    CountPositive(st, MightMatch);
  }

  /** Once stale matches are gone the statuses are those of the longer input. */
  lemma Advance(upper: char -> char, s: string, n: nat, kws: seq<string>, compared: seq<Status>, now: seq<Status>)
    requires n < |s| && |compared| == |now| == |kws|
    requires forall k :: 0 <= k < |kws| ==> compared[k] == StatusCompared(upper, s[..n], s[n], kws[k])
    requires forall k :: 0 <= k < |kws| ==>
               now[k] == if compared[k] == DoesMatch && |kws[k]| != n + 1 then DoesntMatch else compared[k]
    ensures Exact(upper, s[..n + 1], kws, now)
  {
    assert s[..n + 1] == s[..n] + [s[n]];
    forall k | 0 <= k < |kws| ensures now[k] == StatusAfter(upper, s[..n + 1], kws[k]) {
      if StatusAfter(upper, s[..n], kws[k]) != MightMatch {
        PrefixExtended(upper, s[..n], s[n], kws[k]);
      }
    }
  }

  lemma StoppedIsLongest(upper: char -> char, s: string, n: nat, kws: seq<string>, st: seq<Status>)
    requires Stopped(upper, s, n, kws, st) && (n == 0 || StartsSome(upper, s[..n], kws))
    ensures Longest(upper, s, kws, n)
  {
    forall m | n < m <= |s| ensures !StartsSome(upper, s[..m], kws) {
      PrefixShorter(upper, s, kws, n + 1, m);
    }
  }

  /** Some keyword is longer than s and starts with it. */
  ghost predicate CouldContinue(upper: char -> char, s: string, kws: seq<string>) {
    exists k :: 0 <= k < |kws| && |s| < |kws[k]| && PrefixOf(upper, s, kws[k])
  }

  lemma AtEnd(upper: char -> char, s: string, kws: seq<string>, st: seq<Status>)
    requires Exact(upper, s, kws, st) && Count(st, MightMatch) > 0
    ensures CouldContinue(upper, s, kws) && Longest(upper, s, kws, |s|)
  {
    CountPositive(st, MightMatch);
    var k :| 0 <= k < |st| && st[k] == MightMatch;
    assert s[..|s|] == s && PrefixOf(upper, s, kws[k]);
  }

  lemma NoneLonger(upper: char -> char, s: string, kws: seq<string>, st: seq<Status>)
    requires Exact(upper, s, kws, st) && MightMatch !in st
    ensures !CouldContinue(upper, s, kws)
  {
    forall k | 0 <= k < |kws| ensures !(|s| < |kws[k]| && PrefixOf(upper, s, kws[k])) {
      assert st[k] in st;
    }
  }

  /** One turn of the scanning loop on the character c, the next of `rest`: whether it is consumed, and the
      statuses and counters after it. */
  method TestNext(upper: char -> char, ghost rest: string, ghost n: nat, kws: seq<string>, indx: nat, c: char,
                  status: array<Status>, might0: nat, does0: nat)
    returns (consume: bool, might: nat, does: nat)
    requires n < |rest| && c == rest[n] && indx == n && status.Length == |kws|
    requires Exact(upper, rest[..n], kws, status[..]) && CountersAgree(status[..], might0, does0)
    modifies status
    ensures CountersAgree(status[..], might, does)
    ensures consume <==> StartsSome(upper, rest[..n + 1], kws)
    ensures consume ==> Exact(upper, rest[..n + 1], kws, status[..])
    ensures !consume ==> might == 0 && Stopped(upper, rest, n, kws, status[..])
  {
    consume, might, does := Compare(upper, rest[..n], kws, indx, c, status, might0, does0);
    assert rest[..n + 1] == rest[..n] + [c];
    if consume {
      ghost var compared := status[..];
      if might + does > 1 {
        does := DropShorter(kws, indx, status, might, does);
      } else {
        NothingStale(upper, rest[..n], c, kws, compared);
      }
      Advance(upper, rest, n, kws, compared, status[..]);
    } else {
      RejectStops(upper, rest, n, kws, status[..]);
    }
  }

  /** What the statuses say when the scanning loop ends, at the end of the input or before it. */
  lemma LoopEnd(upper: char -> char, s: string, n: nat, kws: seq<string>, st: seq<Status>, might: nat, does: nat,
                eof: bool)
    requires n <= |s| && (n == 0 || StartsSome(upper, s[..n], kws)) && CountersAgree(st, might, does)
    requires if eof then n == |s| && Exact(upper, s[..n], kws, st) && might > 0
             else Stopped(upper, s, n, kws, st) || (Exact(upper, s[..n], kws, st) && might == 0)
    ensures Longest(upper, s, kws, n) && |st| == |kws|
    ensures forall k :: 0 <= k < |kws| ==> (st[k] == DoesMatch <==> Matches(upper, s[..n], kws[k]))
    ensures eof <==> n == |s| && CouldContinue(upper, s, kws)
  {
    if eof {
      assert s[..n] == s;
      AtEnd(upper, s, kws, st);
    } else {
      if !Stopped(upper, s, n, kws, st) {
        ExactStops(upper, s, n, kws, st);
      }
      StoppedIsLongest(upper, s, n, kws, st);
      if n == |s| {
        NoneLonger(upper, s, kws, st);
      }
    }
  }

  method FirstMatch(status: array<Status>) returns (found: nat)
    ensures found <= status.Length && (found < status.Length ==> status[found] == DoesMatch)
    ensures forall k :: 0 <= k < found ==> status[k] != DoesMatch
  {
    found := 0;
    while found < status.Length && status[found] != DoesMatch
      invariant 0 <= found <= status.Length
      invariant forall k :: 0 <= k < found ==> status[k] != DoesMatch
    {
      found := found + 1;
    }
  }

  /** Before anything is consumed the matches are the empty keywords, and the others might match. */
  lemma OnlyEmptyMatch(upper: char -> char, kws: seq<string>, st: seq<Status>, might: nat, does: nat)
    requires Exact(upper, "", kws, st) && CountersAgree(st, might, does)
    ensures forall k :: 0 <= k < |kws| ==> (st[k] == DoesMatch <==> kws[k] == "")
    ensures might > 0 <==> exists k :: 0 <= k < |kws| && kws[k] != ""
  {
    CountPositive(st, MightMatch);
    if k :| 0 <= k < |kws| && kws[k] != "" {
      assert st[k] == MightMatch && st[k] in st;
    }
  }

  /** Consumes the longest prefix of the input that starts some keyword, returns the first keyword equal to
      it, and sets failbit exactly when there is none; eofbit exactly when the input ended while a longer
      keyword was still possible. On a stream that is not good nothing is consumed and only empty keywords
      match; looking for another one fails the stream. */
  method ScanKeyword(upper: char -> char, input: InputStream, kws: seq<string>) returns (found: nat)
    requires input.Valid()
    modifies input
    ensures input.Valid() && input.text == old(input.text) && input.pos >= old(input.pos) && found <= |kws|
    ensures old(input.Good()) ==>
              && Longest(upper, old(input.Rest()), kws, input.pos - old(input.pos))
              && (input.eofbit <==> input.pos == |input.text| && CouldContinue(upper, old(input.Rest()), kws))
              && (input.failbit <==> found == |kws|)
    ensures var token := old(input.Rest())[..input.pos - old(input.pos)];
            && (found < |kws| ==> Matches(upper, token, kws[found]))
            && (forall k :: 0 <= k < found && k < |kws| ==> !Matches(upper, token, kws[k]))
    ensures !old(input.Good()) ==>
              && input.pos == old(input.pos) && input.eofbit == old(input.eofbit)
              && (input.failbit <==> old(input.failbit) || found == |kws| || exists k :: 0 <= k < |kws| && kws[k] != "")
  {
    hide Longest, StartsSome, Exact, Stopped, CouldContinue, CountersAgree, Matches;
    ghost var rest, good := input.Rest(), input.Good();
    ghost var n := 0;
    var status, might, does := InitStatus(kws);
    assert rest[..0] == "";
    OnlyEmptyMatch(upper, kws, status[..], might, does);
    EmptyMatches(upper, kws);
    ghost var first := might;
    var indx := 0;
    while !input.failbit && might > 0
      invariant input.Valid() && input.text == old(input.text)
      invariant input.failbit == old(input.failbit) && input.eofbit == old(input.eofbit)
      invariant !good ==> n == 0 && might == first
      invariant forall k :: 0 <= k < |kws| && !good ==> (status[k] == DoesMatch <==> kws[k] == "")
      invariant input.pos == old(input.pos) + n && n <= |rest|
      invariant CountersAgree(status[..], might, does)
      invariant status.Length == |kws| && fresh(status)
      invariant n == 0 || StartsSome(upper, rest[..n], kws)
      invariant Exact(upper, rest[..n], kws, status[..]) || Stopped(upper, rest, n, kws, status[..])
      invariant might > 0 ==> indx == n && Exact(upper, rest[..n], kws, status[..])
      decreases |rest| - n, might
    {
      var c := input.Peek();
      if c == None {
        input.eofbit := true;
        break;
      }
      var consume;
      consume, might, does := TestNext(upper, rest, n, kws, indx, c.value, status, might, does);
      if consume {
        input.pos := input.pos + 1;
        n := n + 1;
      }
      indx := indx + 1;
    }
    if good {
      LoopEnd(upper, rest, n, kws, status[..], might, does, input.eofbit);
    }
    found := FirstMatch(status);
    if found == |kws| {
      input.failbit := true;
    }
  }

  lemma EmptyMatches(upper: char -> char, kws: seq<string>)
    ensures forall k :: 0 <= k < |kws| ==> (Matches(upper, "", kws[k]) <==> kws[k] == "")
  {
  }
}
