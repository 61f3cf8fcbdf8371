/** Facts about slices. */
module Sequences {
  lemma Slice<T>(s: seq<T>, i: nat, j: nat, a: nat, b: nat)
    requires i <= j <= |s| && a <= b <= j - i
    ensures s[i..j][a..b] == s[i + a..i + b]
  {
    var x, y := s[i..j][a..b], s[i + a..i + b];
    assert |x| == |y|;
    forall k | 0 <= k < b - a ensures x[k] == y[k] {
      assert x[k] == s[i..j][a + k] == s[i + a + k];
    }
  }

  lemma RestSlice<T>(s: seq<T>, i: nat, a: nat, b: nat)
    requires i <= |s| && a <= b <= |s| - i
    ensures s[i..][a..b] == s[i + a..i + b]
  {
    assert s[i..] == s[i..|s|];
    Slice(s, i, |s|, a, b);
  }

  lemma Concatenated<T>(x: seq<T>, y: seq<T>, z: seq<T>)
    ensures x + (y + z) == (x + y) + z
  {
  }

  /** The parts one after another. */
  function Flatten<T>(parts: seq<seq<T>>): seq<T> {
    if parts == [] then [] else Flatten(parts[..|parts| - 1]) + parts[|parts| - 1]
  }

  lemma {:induction false} FlattenFront<T>(first: seq<T>, parts: seq<seq<T>>)
    ensures Flatten([first] + parts) == first + Flatten(parts)
  {
    if parts == [] {
      assert [first] + parts == [first];
    } else {
      var front, all := parts[..|parts| - 1], [first] + parts;
      FlattenFront(first, front);
      assert all[..|all| - 1] == [first] + front && all[|all| - 1] == parts[|parts| - 1];
      hide Flatten;
      Concatenated(first, Flatten(front), parts[|parts| - 1]);
    }
  }
}
