/** The type-directed serializer of binary_read_write_helper.h. */
module Serializer {
  import opened Bytes
  import opened Sequences

  /** The C++ types it handles; ordered and unordered sets and maps differ only in enumeration order. */
  datatype Type =
    | Pod(width: nat)
    | Pair(a: Type, b: Type)
    | Triple(a: Type, b: Type, c: Type)
    | Str
    | Vec(elem: Type)
    | Set(elem: Type)
    | Map(key: Type, val: Type)

  /** Values up to the equality of C++: sets and maps have no order. */
  datatype Value =
    | PodV(bytes: seq<Byte>)
    | PairV(x: Value, y: Value)
    | TripleV(x: Value, y: Value, z: Value)
    | StrV(chars: seq<Byte>)
    | VecV(elems: seq<Value>)
    | SetV(members: set<Value>)
    | MapV(entries: map<Value, Value>)

  /** Objects in memory: a container also has an order in which iteration meets its elements. */
  datatype Obj =
    | PodO(bytes: seq<Byte>)
    | PairO(x: Obj, y: Obj)
    | TripleO(x: Obj, y: Obj, z: Obj)
    | StrO(chars: seq<Byte>)
    | VecO(elems: seq<Obj>)
    | SetO(order: seq<Obj>)
    | MapO(pairs: seq<Obj>)

  /** insert: an element whose key is present is not inserted. */
  function InsertPair(m: map<Value, Value>, p: Value): map<Value, Value> {
    if p.PairV? && p.x !in m then m[p.x := p.y] else m
  }

  function InsertAll(m: map<Value, Value>, ps: seq<Value>): map<Value, Value> {
    if ps == [] then m else InsertPair(InsertAll(m, ps[..|ps| - 1]), ps[|ps| - 1])
  }

  /** The value an object has. */
  function Abs(o: Obj): Value
    decreases o, 1
  {
    match o
    case PodO(b) => PodV(b)
    case PairO(x, y) => PairV(Abs(x), Abs(y))
    case TripleO(x, y, z) => TripleV(Abs(x), Abs(y), Abs(z))
    case StrO(s) => StrV(s)
    case VecO(es) => VecV(AbsAll(es))
    case SetO(es) => SetV(set v | v in AbsAll(es))
    case MapO(ps) => MapV(InsertAll(map[], AbsAll(ps)))
  }

  function AbsAll(es: seq<Obj>): (vs: seq<Value>)
    ensures |vs| == |es|
    decreases es, 0
  {
    if es == [] then [] else [Abs(es[0])] + AbsAll(es[1..])
  }

  /** The bytes written for an object, elements in iteration order. */
  function Encode(o: Obj): seq<Byte>
    decreases o, 1
  {
    match o
    case PodO(b) => b
    case PairO(x, y) => Encode(x) + Encode(y)
    case TripleO(x, y, z) => Encode(x) + Encode(y) + Encode(z)
    case StrO(s) => LittleEndian(|s|, SIZE_T) + s
    case VecO(es) => LittleEndian(|es|, SIZE_T) + EncodeAll(es)
    case SetO(es) => LittleEndian(|es|, SIZE_T) + EncodeAll(es)
    case MapO(ps) => LittleEndian(|ps|, SIZE_T) + EncodeAll(ps)
  }

  function EncodeAll(es: seq<Obj>): seq<Byte>
    decreases es, 0
  {
    if es == [] then [] else Encode(es[0]) + EncodeAll(es[1..])
  }

  /** The elements of a container are written one after another in iteration order. */
  lemma {:induction false} EncodedInOrder(es: seq<Obj>)
    ensures EncodeAll(es) == Flatten(seq(|es|, i requires 0 <= i < |es| => Encode(es[i])))
  {
    hide Encode;
    var parts := seq(|es|, i requires 0 <= i < |es| => Encode(es[i]));
    if es == [] {
    } else {
      var rest := es[1..];
      EncodedInOrder(rest);
      var later := seq(|rest|, i requires 0 <= i < |rest| => Encode(rest[i]));
      assert parts == [Encode(es[0])] + later;
      FlattenFront(Encode(es[0]), later);
    }
  }

  /** The parts of a value in the order of their names; a size in eight bytes before the elements of a container. */
  lemma EncodedLayout(o: Obj)
    ensures match o
            case PodO(b) => Encode(o) == b
            case PairO(x, y) => Encode(x) <= Encode(o) && Encode(o)[|Encode(x)|..] == Encode(y)
            case TripleO(x, y, z) =>
              Encode(PairO(x, y)) <= Encode(o) && Encode(o)[|Encode(PairO(x, y))|..] == Encode(z)
            case StrO(s) => Encode(o)[..8] == LittleEndian(|s|, 8) && Encode(o)[8..] == s
            case VecO(es) => Encode(o)[..8] == LittleEndian(|es|, 8) && Encode(o)[8..] == EncodeAll(es)
            case SetO(es) => Encode(o)[..8] == LittleEndian(|es|, 8) && Encode(o)[8..] == EncodeAll(es)
            case MapO(ps) => Encode(o)[..8] == LittleEndian(|ps|, 8) && Encode(o)[8..] == EncodeAll(ps)
  {
    hide LittleEndian, EncodeAll;
  }

  /** o is an object of type t whose container sizes fit a `size_t`. */
  ghost predicate Typed(t: Type, o: Obj)
    decreases t
  {
    match t
    case Pod(w) => w > 0 && o.PodO? && |o.bytes| == w
    case Pair(a, b) => o.PairO? && Typed(a, o.x) && Typed(b, o.y)
    case Triple(a, b, c) => o.TripleO? && Typed(a, o.x) && Typed(b, o.y) && Typed(c, o.z)
    case Str => o.StrO? && |o.chars| < SIZE_T_LIMIT
    case Vec(e) => o.VecO? && |o.elems| < SIZE_T_LIMIT && forall x :: x in o.elems ==> Typed(e, x)
    case Set(e) => o.SetO? && |o.order| < SIZE_T_LIMIT && forall x :: x in o.order ==> Typed(e, x)
    case Map(k, v) =>
      o.MapO? && |o.pairs| < SIZE_T_LIMIT
      && forall x :: x in o.pairs ==> x.PairO? && Typed(k, x.x) && Typed(v, x.y)
  }

  /** d is a value of type t. */
  ghost predicate Shaped(t: Type, d: Value)
    decreases t
  {
    match t
    case Pod(w) => d.PodV? && |d.bytes| == w
    case Pair(a, b) => d.PairV? && Shaped(a, d.x) && Shaped(b, d.y)
    case Triple(a, b, c) => d.TripleV? && Shaped(a, d.x) && Shaped(b, d.y) && Shaped(c, d.z)
    case Str => d.StrV?
    case Vec(e) => d.VecV? && forall x :: x in d.elems ==> Shaped(e, x)
    case Set(e) => d.SetV? && forall x :: x in d.members ==> Shaped(e, x)
    case Map(k, v) => d.MapV? && forall x :: x in d.entries ==> Shaped(k, x) && Shaped(v, d.entries[x])
  }

  /** A default-constructed value. */
  function Default(t: Type): Value {
    match t
    case Pod(w) => PodV(seq(w, _ => 0))
    case Pair(a, b) => PairV(Default(a), Default(b))
    case Triple(a, b, c) => TripleV(Default(a), Default(b), Default(c))
    case Str => StrV([])
    case Vec(_) => VecV([])
    case Set(_) => SetV({})
    case Map(_, _) => MapV(map[])
  }

  /** What is in a variable holding `d` after v was read into it: plain data and strings are overwritten, vectors
      resized and then read element by element, but sets and maps only inserted into. */
  function Merge(t: Type, d: Value, v: Value): Value
    decreases t
  {
    match t
    case Pair(a, b) => if d.PairV? && v.PairV? then PairV(Merge(a, d.x, v.x), Merge(b, d.y, v.y)) else v
    case Triple(a, b, c) =>
      if d.TripleV? && v.TripleV? then TripleV(Merge(a, d.x, v.x), Merge(b, d.y, v.y), Merge(c, d.z, v.z)) else v
    case Vec(e) =>
      if d.VecV? && v.VecV? then
        VecV(seq(|v.elems|, i requires 0 <= i < |v.elems| =>
                              Merge(e, if i < |d.elems| then d.elems[i] else Default(e), v.elems[i])))
      else v
    case Set(_) => if d.SetV? && v.SetV? then SetV(d.members + v.members) else v
    case Map(_, _) => if d.MapV? && v.MapV? then MapV(v.entries + d.entries) else v
    case _ => v
  }

  /** Nothing left over in the variable can show: its sets and maps hold nothing that v does not. */
  ghost predicate Clean(t: Type, d: Value, v: Value)
    requires Shaped(t, d) && Shaped(t, v)
    decreases t
  {
    match t
    case Pair(a, b) => Clean(a, d.x, v.x) && Clean(b, d.y, v.y)
    case Triple(a, b, c) => Clean(a, d.x, v.x) && Clean(b, d.y, v.y) && Clean(c, d.z, v.z)
    case Vec(e) => forall i :: 0 <= i < |d.elems| && i < |v.elems| ==> Clean(e, d.elems[i], v.elems[i])
    case Set(_) => d.members <= v.members
    case Map(_, _) => forall k :: k in d.entries ==> k in v.entries && v.entries[k] == d.entries[k]
    case _ => true
  }

  lemma {:induction false} AbsAt(es: seq<Obj>, i: nat)
    requires i < |es|
    ensures AbsAll(es)[i] == Abs(es[i])
  {
    if i == 0 {
    } else {
      AbsAt(es[1..], i - 1);
    }
  }

  lemma {:induction false} TypedIsShaped(t: Type, o: Obj)
    requires Typed(t, o)
    ensures Shaped(t, Abs(o))
    decreases t, 0
  {
    match t
    case Pair(a, b) =>
      TypedIsShaped(a, o.x);
      TypedIsShaped(b, o.y);
    case Triple(a, b, c) =>
      TypedIsShaped(a, o.x);
      TypedIsShaped(b, o.y);
      TypedIsShaped(c, o.z);
    case Vec(e) => AllShaped(e, o.elems);
    case Set(e) => AllShaped(e, o.order);
    case Map(k, v) =>
      forall i | 0 <= i < |o.pairs|
        ensures var p := AbsAll(o.pairs)[i]; p.PairV? && Shaped(k, p.x) && Shaped(v, p.y)
      {
        AbsAt(o.pairs, i);
        TypedIsShaped(k, o.pairs[i].x);
        TypedIsShaped(v, o.pairs[i].y);
      }
      InsertShaped(k, v, AbsAll(o.pairs));
    case _ =>
  }

  lemma {:induction false} AllShaped(t: Type, es: seq<Obj>)
    requires forall x :: x in es ==> Typed(t, x)
    ensures forall v :: v in AbsAll(es) ==> Shaped(t, v)
    decreases t, 1
  {
    forall i | 0 <= i < |es| ensures Shaped(t, AbsAll(es)[i]) {
      AbsAt(es, i);
      TypedIsShaped(t, es[i]);
    }
  }

  lemma OneShaped(k: Type, v: Type, m: map<Value, Value>, p: Value)
    requires Shaped(Map(k, v), MapV(m)) && p.PairV? && Shaped(k, p.x) && Shaped(v, p.y)
    ensures Shaped(Map(k, v), MapV(InsertPair(m, p)))
  {
  }

  lemma {:induction false} InsertShaped(k: Type, v: Type, ps: seq<Value>)
    requires forall i :: 0 <= i < |ps| ==> ps[i].PairV? && Shaped(k, ps[i].x) && Shaped(v, ps[i].y)
    ensures Shaped(Map(k, v), MapV(InsertAll(map[], ps)))
  {
    if ps == [] {
    } else {
      hide Shaped, InsertPair;
      var front := ps[..|ps| - 1];
      InsertShaped(k, v, front);
      OneShaped(k, v, InsertAll(map[], front), ps[|ps| - 1]);
    }
  }

  /** Reading into a variable with leftovers gives the value exactly when none of them can show. */
  lemma {:induction false} CleanExactly(t: Type, d: Value, v: Value)
    requires Shaped(t, d) && Shaped(t, v)
    ensures Merge(t, d, v) == v <==> Clean(t, d, v)
    decreases t
  {
    match t
    case Pair(a, b) =>
      CleanExactly(a, d.x, v.x);
      CleanExactly(b, d.y, v.y);
    case Triple(a, b, c) =>
      CleanExactly(a, d.x, v.x);
      CleanExactly(b, d.y, v.y);
      CleanExactly(c, d.z, v.z);
    case Vec(e) =>
      var m := Merge(t, d, v).elems;
      forall i | 0 <= i < |v.elems|
        ensures m[i] == v.elems[i] <==> (i < |d.elems| ==> Clean(e, d.elems[i], v.elems[i]))
      {
        assert v.elems[i] in v.elems;
        if i < |d.elems| {
          assert d.elems[i] in d.elems;
          CleanExactly(e, d.elems[i], v.elems[i]);
        } else {
          DefaultIsClean(e, v.elems[i]);
          CleanExactly(e, Default(e), v.elems[i]);
        }
      }
      assert Merge(t, d, v) == v <==> forall i :: 0 <= i < |v.elems| ==> m[i] == v.elems[i];
    case Set(_) =>
      assert d.members + v.members == v.members <==> d.members <= v.members;
    case Map(_, _) =>
      MapOverride(v.entries, d.entries);
    case _ =>
  }

  lemma MapOverride(m: map<Value, Value>, d: map<Value, Value>)
    ensures m + d == m <==> forall k :: k in d ==> k in m && m[k] == d[k]
  {
    if m + d == m {
      forall k | k in d ensures k in m && m[k] == d[k] {
        assert (m + d)[k] == d[k];
      }
    }
  }

  lemma {:induction false} DefaultIsClean(t: Type, v: Value)
    requires Shaped(t, v)
    ensures Shaped(t, Default(t)) && Clean(t, Default(t), v)
  {
    match t
    case Pair(a, b) =>
      DefaultIsClean(a, v.x);
      DefaultIsClean(b, v.y);
    case Triple(a, b, c) =>
      DefaultIsClean(a, v.x);
      DefaultIsClean(b, v.y);
      DefaultIsClean(c, v.z);
    case _ =>
  }

  // The bytes.

  lemma SizeBytes(n: nat)
    requires n < SIZE_T_LIMIT
    ensures FromLittleEndian(LittleEndian(n, SIZE_T)) == n
  {
    Pow256Values();
    LittleEndianRoundTrip(n, SIZE_T);
  }

  /** No object is written as nothing, so a count of zero always means failure. */
  lemma {:induction false} EncodedSomething(t: Type, o: Obj)
    requires Typed(t, o)
    ensures Encode(o) != []
    decreases t
  {
    match t
    case Pair(a, b) => EncodedSomething(a, o.x);
    case Triple(a, b, c) => EncodedSomething(a, o.x);
    case _ =>
  }

  lemma {:induction false} PodLength(w: nat, es: seq<Obj>)
    requires forall x :: x in es ==> x.PodO? && |x.bytes| == w
    ensures |EncodeAll(es)| == w * |es|
  {
    if es == [] {
    } else {
      assert es[0] in es && forall x :: x in es[1..] ==> x in es;
      PodLength(w, es[1..]);
      Times(w, |es|);
    }
  }

  /** Plain data lies contiguously: element i of a vector of w-byte elements is at byte w * i. */
  lemma {:induction false} PodArray(w: nat, es: seq<Obj>, i: nat)
    requires (forall x :: x in es ==> x.PodO? && |x.bytes| == w) && i < |es|
    ensures w * i + w <= |EncodeAll(es)| && EncodeAll(es)[w * i..w * i + w] == es[i].bytes
  {
    var all, rest := EncodeAll(es), EncodeAll(es[1..]);
    assert es[0] in es;
    assert all == es[0].bytes + rest && all[w..] == rest;
    hide EncodeAll, Encode;
    if i == 0 {
      assert all[0..w] == es[0].bytes && w * 0 == 0;
    } else {
      assert forall x :: x in es[1..] ==> x in es;
      PodArray(w, es[1..], i - 1);
      Times(w, i);
      RestSlice(all, w, w * (i - 1), w * (i - 1) + w);
    }
  }

  lemma Times(w: nat, i: nat)
    ensures i > 0 ==> w * i == w + w * (i - 1)
  {
  }

  function TypeSize(t: Type): nat {
    match t
    case Pod(_) => 0
    case Str => 0
    case Pair(a, b) => 1 + TypeSize(a) + TypeSize(b)
    case Triple(a, b, c) => 1 + TypeSize(a) + TypeSize(b) + TypeSize(c)
    case Vec(e) => 1 + TypeSize(e)
    case Set(e) => 1 + TypeSize(e)
    case Map(k, v) => 2 + TypeSize(k) + TypeSize(v)
  }

  /** Any stream type with Read and Write. */
  class Stream {
    var data: seq<Byte>

    constructor (data: seq<Byte>)
      ensures this.data == data
    {
      this.data := data;
    }

    method Write(bytes: seq<Byte>)
      modifies this
      ensures data == old(data) + bytes
    {
      data := data + bytes;
    }

    method Read(size: nat) returns (bytes: seq<Byte>)
      modifies this
      ensures bytes + data == old(data) && |bytes| == if size <= |old(data)| then size else |old(data)|
    {
      var n := if size <= |data| then size else |data|;
      bytes := data[..n];
      data := data[n..];
    }
  }

  method WriteSize(n: nat, s: Stream) returns (bytes: nat)
    modifies s
    ensures s.data == old(s.data) + LittleEndian(n, SIZE_T) && bytes == SIZE_T
  {
    s.Write(LittleEndian(n, SIZE_T));
    bytes := SIZE_T;
  }

  method ReadSize(s: Stream, ghost n: nat, ghost rest: seq<Byte>) returns (size: nat, bytes: nat)
    requires n < SIZE_T_LIMIT && s.data == LittleEndian(n, SIZE_T) + rest
    modifies s
    ensures s.data == rest && size == n && bytes == SIZE_T
  {
    var b := s.Read(SIZE_T);
    assert b == (b + s.data)[..SIZE_T] == LittleEndian(n, SIZE_T);
    assert s.data == (b + s.data)[SIZE_T..];
    SizeBytes(n);
    size, bytes := FromLittleEndian(b), |b|;
  }

  /** Appends exactly the encoding and returns its length. */
  method BinaryWrite(t: Type, o: Obj, s: Stream) returns (n: nat)
    requires Typed(t, o)
    modifies s
    ensures s.data == old(s.data) + Encode(o) && n == |Encode(o)|
    decreases TypeSize(t), 1
  {
    hide LittleEndian, EncodeAll;
    ghost var before := s.data;
    match t
    case Pod(w) =>
      s.Write(o.bytes);
      n := w;
    case Pair(a, b) =>
      var x := BinaryWrite(a, o.x, s);
      var y := BinaryWrite(b, o.y, s);
      Concatenated(before, Encode(o.x), Encode(o.y));
      n := x + y;
    case Triple(a, b, c) =>
      var x := BinaryWrite(a, o.x, s);
      var y := BinaryWrite(b, o.y, s);
      var z := BinaryWrite(c, o.z, s);
      Concatenated(before, Encode(o.x), Encode(o.y));
      Concatenated(before, Encode(o.x) + Encode(o.y), Encode(o.z));
      n := x + y + z;
    case Str =>
      n := WriteSize(|o.chars|, s);
      s.Write(o.chars);
      Concatenated(before, LittleEndian(|o.chars|, SIZE_T), o.chars);
      n := n + |o.chars|;
    case Vec(e) =>
      n := WriteSize(|o.elems|, s);
      var m;
      if e.Pod? {
        m := WriteArray(e.width, o.elems, s);
      } else {
        m := WriteElements(e, o.elems, s);
      }
      Concatenated(before, LittleEndian(|o.elems|, SIZE_T), EncodeAll(o.elems));
      n := n + m;
    case Set(e) =>
      n := WriteSize(|o.order|, s);
      var m := WriteElements(e, o.order, s);
      Concatenated(before, LittleEndian(|o.order|, SIZE_T), EncodeAll(o.order));
      n := n + m;
    case Map(k, v) =>
      n := WriteSize(|o.pairs|, s);
      var m := WriteElements(Pair(k, v), o.pairs, s);
      Concatenated(before, LittleEndian(|o.pairs|, SIZE_T), EncodeAll(o.pairs));
      n := n + m;
  }

  /** One Write of the memory of a vector of plain data. */
  method WriteArray(w: nat, es: seq<Obj>, s: Stream) returns (n: nat)
    requires forall x :: x in es ==> Typed(Pod(w), x)
    modifies s
    ensures s.data == old(s.data) + EncodeAll(es) && n == |EncodeAll(es)|
  {
    PodLength(w, es);
    s.Write(EncodeAll(es));
    n := w * |es|;
  }

  method WriteElements(e: Type, es: seq<Obj>, s: Stream) returns (n: nat)
    requires forall x :: x in es ==> Typed(e, x)
    modifies s
    ensures s.data == old(s.data) + EncodeAll(es) && n == |EncodeAll(es)|
    decreases TypeSize(e), 2
  {
    n := 0;
    var i := 0;
    assert es[0..] == es;
    while i < |es|
      invariant 0 <= i <= |es|
      invariant s.data + EncodeAll(es[i..]) == old(s.data) + EncodeAll(es)
      invariant n + |EncodeAll(es[i..])| == |EncodeAll(es)|
    {
      assert es[i..][1..] == es[i + 1..];
      var m := BinaryWrite(e, es[i], s);
      n := n + m;
      i := i + 1;
    }
    assert es[i..] == [];
  }

  /** Inserting into a map with leftovers: the leftovers win. */
  lemma {:induction false} InsertIntoLeftovers(m: map<Value, Value>, ps: seq<Value>)
    ensures InsertAll(m, ps) == InsertAll(map[], ps) + m
  {
    if ps == [] {
    } else {
      InsertIntoLeftovers(m, ps[..|ps| - 1]);
    }
  }

  lemma {:induction false} AbsAllAppend(es: seq<Obj>, o: Obj)
    ensures AbsAll(es + [o]) == AbsAll(es) + [Abs(o)]
  {
    if es == [] {
      assert [o][1..] == [];
    } else {
      AbsAllAppend(es[1..], o);
      assert (es + [o])[1..] == es[1..] + [o];
    }
  }

  /** What is read into a default-constructed variable is the value itself. */
  lemma FreshRead(t: Type, o: Obj)
    requires Typed(t, o)
    ensures Shaped(t, Default(t)) && Merge(t, Default(t), Abs(o)) == Abs(o)
  {
    TypedIsShaped(t, o);
    DefaultIsClean(t, Abs(o));
    CleanExactly(t, Default(t), Abs(o));
  }

  /** Consumes exactly the encoding, returns its length, and leaves in the variable what Merge says. */
  method BinaryRead(t: Type, s: Stream, d0: Value, ghost o: Obj, ghost rest: seq<Byte>) returns (d: Value, n: nat)
    requires Typed(t, o) && Shaped(t, d0) && s.data == Encode(o) + rest
    modifies s
    ensures s.data == rest && n == |Encode(o)| && d == Merge(t, d0, Abs(o))
    decreases TypeSize(t), 1
  {
    hide LittleEndian, EncodeAll, AbsAll;
    match t
    case Pod(w) =>
      var b := ReadExactly(s, w, Encode(o), rest);
      d, n := PodV(b), |b|;
    case Pair(a, b) =>
      assert Encode(o) + rest == Encode(o.x) + (Encode(o.y) + rest);
      var x, m := BinaryRead(a, s, d0.x, o.x, Encode(o.y) + rest);
      var y, k := BinaryRead(b, s, d0.y, o.y, rest);
      d, n := PairV(x, y), m + k;
    case Triple(a, b, c) =>
      assert Encode(o) + rest == Encode(o.x) + (Encode(o.y) + (Encode(o.z) + rest));
      var x, m := BinaryRead(a, s, d0.x, o.x, Encode(o.y) + (Encode(o.z) + rest));
      var y, k := BinaryRead(b, s, d0.y, o.y, Encode(o.z) + rest);
      var z, l := BinaryRead(c, s, d0.z, o.z, rest);
      d, n := TripleV(x, y, z), m + k + l;
    case Str =>
      assert Encode(o) + rest == LittleEndian(|o.chars|, SIZE_T) + (o.chars + rest);
      var size, m := ReadSize(s, |o.chars|, o.chars + rest);
      var b := ReadExactly(s, size, o.chars, rest);
      d, n := StrV(b), |b| + SIZE_T;
    case Vec(e) =>
      assert Encode(o) + rest == LittleEndian(|o.elems|, SIZE_T) + (EncodeAll(o.elems) + rest);
      var size, m := ReadSize(s, |o.elems|, EncodeAll(o.elems) + rest);
      var elems, k := ReadVector(e, s, size, d0.elems, o.elems, rest);
      d, n := VecV(elems), m + k;
    case Set(e) =>
      assert Encode(o) + rest == LittleEndian(|o.order|, SIZE_T) + (EncodeAll(o.order) + rest);
      var size, m := ReadSize(s, |o.order|, EncodeAll(o.order) + rest);
      var members, k := ReadMembers(e, s, size, d0.members, o.order, rest);
      d, n := SetV(members), m + k;
    case Map(k, v) =>
      assert Encode(o) + rest == LittleEndian(|o.pairs|, SIZE_T) + (EncodeAll(o.pairs) + rest);
      var size, m := ReadSize(s, |o.pairs|, EncodeAll(o.pairs) + rest);
      var entries, l := ReadEntries(k, v, s, size, d0.entries, o.pairs, rest);
      InsertIntoLeftovers(d0.entries, AbsAll(o.pairs));
      d, n := MapV(entries), m + l;
  }

  method ReadExactly(s: Stream, size: nat, ghost bytes: seq<Byte>, ghost rest: seq<Byte>) returns (b: seq<Byte>)
    requires s.data == bytes + rest && |bytes| == size
    modifies s
    ensures b == bytes && s.data == rest
  {
    b := s.Read(size);
    assert b == (b + s.data)[..size] == bytes && s.data == (b + s.data)[size..];
  }

  /** resize keeps the first elements and default-constructs the others. */
  function Resized(e: Type, d: seq<Value>, size: nat): (r: seq<Value>)
    ensures |r| == size
  {
    seq(size, i requires 0 <= i < size => if i < |d| then d[i] else Default(e))
  }

  method ReadVector(e: Type, s: Stream, size: nat, d0: seq<Value>, ghost es: seq<Obj>, ghost rest: seq<Byte>)
    returns (d: seq<Value>, n: nat)
    requires size == |es| && (forall x :: x in es ==> Typed(e, x)) && Shaped(Vec(e), VecV(d0))
    requires s.data == EncodeAll(es) + rest
    modifies s
    ensures s.data == rest && n == |EncodeAll(es)|
    ensures VecV(d) == Merge(Vec(e), VecV(d0), VecV(AbsAll(es)))
    decreases TypeSize(e), 3
  {
    if e.Pod? {
      d, n := ReadArray(e.width, s, size, es, rest);
      forall i | 0 <= i < |es| ensures Merge(e, Resized(e, d0, size)[i], AbsAll(es)[i]) == d[i] {
        AbsAt(es, i);
      }
    } else {
      d, n := ReadElements(e, s, size, d0, es, rest);
    }
  }

  /** One Read into the memory of a vector of plain data. */
  method ReadArray(w: nat, s: Stream, size: nat, ghost es: seq<Obj>, ghost rest: seq<Byte>)
    returns (d: seq<Value>, n: nat)
    requires size == |es| && (forall x :: x in es ==> Typed(Pod(w), x)) && s.data == EncodeAll(es) + rest
    modifies s
    ensures s.data == rest && n == |EncodeAll(es)| && d == AbsAll(es)
  {
    hide EncodeAll, Encode;
    PodLength(w, es);
    var b := ReadExactly(s, size * w, EncodeAll(es), rest);
    forall i | 0 <= i < size ensures w * i + w <= |b| && PodV(b[w * i..w * i + w]) == AbsAll(es)[i] {
      PodArray(w, es, i);
      AbsAt(es, i);
      assert es[i] in es;
    }
    d := seq(size, i requires 0 <= i < size => PodV(if w * i + w <= |b| then b[w * i..w * i + w] else []));
    n := |b|;
  }

  method ReadElements(e: Type, s: Stream, size: nat, d0: seq<Value>, ghost es: seq<Obj>, ghost rest: seq<Byte>)
    returns (d: seq<Value>, n: nat)
    requires size == |es| && (forall x :: x in es ==> Typed(e, x)) && Shaped(Vec(e), VecV(d0))
    requires s.data == EncodeAll(es) + rest
    modifies s
    ensures s.data == rest && n == |EncodeAll(es)|
    ensures VecV(d) == Merge(Vec(e), VecV(d0), VecV(AbsAll(es)))
    decreases TypeSize(e), 2
  {
    hide Encode, Abs, AbsAll;
    d := Resized(e, d0, size);
    ghost var start := d;
    n := 0;
    var i := 0;
    assert es[0..] == es;
    while i < size
      invariant 0 <= i <= size && |d| == size && s.data == EncodeAll(es[i..]) + rest
      invariant n + |EncodeAll(es[i..])| == |EncodeAll(es)|
      invariant forall j :: 0 <= j < i ==> d[j] == Merge(e, start[j], AbsAll(es)[j])
      invariant forall j :: i <= j < size ==> d[j] == start[j]
    {
      assert es[i..][1..] == es[i + 1..] && es[i] in es;
      assert EncodeAll(es[i..]) + rest == Encode(es[i]) + (EncodeAll(es[i + 1..]) + rest);
      ElementShaped(e, d0, size, i, es[i]);
      AbsAt(es, i);
      var x, bytes := BinaryRead(e, s, d[i], es[i], EncodeAll(es[i + 1..]) + rest);
      EncodedSomething(e, es[i]);
      if bytes == 0 {
        assert false;  // the failure return of the source: no element is read as nothing
      }
      d := d[i := x];
      n := n + bytes;
      i := i + 1;
    }
    assert es[i..] == [];
  }

  lemma ElementShaped(e: Type, d: seq<Value>, size: nat, i: nat, o: Obj)
    requires Shaped(Vec(e), VecV(d)) && i < size && Typed(e, o)
    ensures Shaped(e, Resized(e, d, size)[i])
  {
    if i < |d| {
      assert d[i] in d;
    }
    FreshRead(e, o);
  }

  method ReadMembers(e: Type, s: Stream, size: nat, m0: set<Value>, ghost es: seq<Obj>, ghost rest: seq<Byte>)
    returns (m: set<Value>, n: nat)
    requires size == |es| && (forall x :: x in es ==> Typed(e, x)) && s.data == EncodeAll(es) + rest
    modifies s
    ensures s.data == rest && n == |EncodeAll(es)|
    ensures m == m0 + set v | v in AbsAll(es)
    decreases TypeSize(e), 2
  {
    hide Encode, Merge, Abs, AbsAll;
    m, n := m0, 0;
    var i := 0;
    assert es[0..] == es && AbsAll(es[..0]) == [];
    while i < size
      invariant 0 <= i <= size && s.data == EncodeAll(es[i..]) + rest
      invariant n + |EncodeAll(es[i..])| == |EncodeAll(es)|
      invariant m == m0 + set v | v in AbsAll(es[..i])
    {
      assert es[i..][1..] == es[i + 1..] && es[i] in es;
      assert EncodeAll(es[i..]) + rest == Encode(es[i]) + (EncodeAll(es[i + 1..]) + rest);
      FreshRead(e, es[i]);
      var x, bytes := BinaryRead(e, s, Default(e), es[i], EncodeAll(es[i + 1..]) + rest);
      assert es[..i + 1] == es[..i] + [es[i]];
      AbsAllAppend(es[..i], es[i]);
      m := m + {x};
      n := n + bytes;
      i := i + 1;
    }
    assert es[i..] == [] && es[..i] == es;
  }

  method ReadEntries(k: Type, v: Type, s: Stream, size: nat, m0: map<Value, Value>,
                     ghost es: seq<Obj>, ghost rest: seq<Byte>)
    returns (m: map<Value, Value>, n: nat)
    requires size == |es| && (forall x :: x in es ==> Typed(Pair(k, v), x)) && s.data == EncodeAll(es) + rest
    modifies s
    ensures s.data == rest && n == |EncodeAll(es)|
    ensures m == InsertAll(m0, AbsAll(es))
    decreases TypeSize(Pair(k, v)), 2
  {
    hide Encode, Merge, Abs, AbsAll;
    m, n := m0, 0;
    var i := 0;
    assert es[0..] == es && AbsAll(es[..0]) == [];
    while i < size
      invariant 0 <= i <= size && s.data == EncodeAll(es[i..]) + rest
      invariant n + |EncodeAll(es[i..])| == |EncodeAll(es)|
      invariant m == InsertAll(m0, AbsAll(es[..i]))
    {
      assert es[i..][1..] == es[i + 1..] && es[i] in es;
      assert EncodeAll(es[i..]) + rest == Encode(es[i]) + (EncodeAll(es[i + 1..]) + rest);
      FreshRead(Pair(k, v), es[i]);
      var x, bytes := BinaryRead(Pair(k, v), s, Default(Pair(k, v)), es[i], EncodeAll(es[i + 1..]) + rest);
      assert es[..i + 1] == es[..i] + [es[i]];
      AbsAllAppend(es[..i], es[i]);
      m := InsertPair(m, x);
      n := n + bytes;
      i := i + 1;
    }
    assert es[i..] == [] && es[..i] == es;
  }

  /** Writing and then reading into a fresh variable: an equal value, the same byte count, exactly the bytes after
      it left, for every type, nesting and enumeration order. */
  method RoundTrip(t: Type, o: Obj, after: seq<Byte>) returns (d: Value, written: nat, read: nat, left: seq<Byte>)
    requires Typed(t, o)
    ensures d == Abs(o) && left == after && written == read
  {
    var s := new Stream([]);
    written := BinaryWrite(t, o, s);
    s.Write(after);
    hide Encode, Typed, Shaped, Merge, Abs;
    FreshRead(t, o);
    assert [] + Encode(o) + after == Encode(o) + after;
    d, read := BinaryRead(t, s, Default(t), o, after);
    left := s.data;
  }
}
