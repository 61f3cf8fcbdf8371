/** Base64 of encrypt.h (section 4 of RFC 4648). */
module Base64 {
  import opened Bytes
  import opened Options
  import opened Sequences

  const PAD: Byte := 61  // '='

  /** The alphabet string indexed by six bits. */
  function Letter(i: Byte): Byte {
    if i < 26 then i + 65 else if i < 52 then i + 71 else if i < 62 then i - 4 else if i == 62 then 43 else 47
  }

  /** The decoding table: 128 marks an illegal character, and the padding character reads as 0. */
  function Value(c: Byte): Byte {
    if c == 43 then 62
    else if c == 47 then 63
    else if 48 <= c <= 57 then c + 4
    else if c == PAD then 0
    else if 65 <= c <= 90 then c - 65
    else if 97 <= c <= 122 then c - 71
    else 128
  }

  predicate Legal(c: Byte) {
    Value(c) != 128
  }

  function EncodeGroup(a: Byte, b: Byte, c: Byte): (r: seq<Byte>)
    ensures |r| == 4
  {
    [Letter(a >> 2), Letter(((a & 0x3) << 4) + ((b & 0xF0) >> 4)),
     Letter(((b & 0x0F) << 2) + (c >> 6)), Letter(c & 0x3F)]
  }

  /** Full groups of three bytes, then one or two bytes left over. */
  function Encoded(s: seq<Byte>): seq<Byte> {
    if s == [] then []
    else if |s| == 1 then EncodeGroup(s[0], 0, 0)[..2] + [PAD, PAD]
    else if |s| == 2 then EncodeGroup(s[0], s[1], 0)[..3] + [PAD]
    else EncodeGroup(s[0], s[1], s[2]) + Encoded(s[3..])
  }

  function DecodeGroup(g: seq<Byte>): (r: seq<Byte>)
    requires |g| == 4
    ensures |r| == 3
  {
    var s0, s1, s2, s3 := Value(g[0]), Value(g[1]), Value(g[2]), Value(g[3]);
    [(s0 << 2) + ((s1 & 0x30) >> 4), ((s1 & 0x0F) << 4) + ((s2 & 0x3C) >> 2), ((s2 & 0x03) << 6) + s3]
  }

  function DecodeGroups(p: seq<Byte>): (r: seq<Byte>)
    requires |p| % 4 == 0
    ensures |r| == |p| / 4 * 3
  {
    if p == [] then [] else DecodeGroup(p[..4]) + DecodeGroups(p[4..])
  }

  function PadCount(p: seq<Byte>): nat {
    if |p| >= 2 && p[|p| - 1] == PAD then (if p[|p| - 2] == PAD then 2 else 1) else 0
  }

  /** What `TryDecode` accepts and returns. */
  function Decoded(p: seq<Byte>): Option<seq<Byte>> {
    if |p| % 4 != 0 || exists i :: 0 <= i < |p| && !Legal(p[i]) then None
    else Some(DecodeGroups(p)[..|p| / 4 * 3 - PadCount(p)])
  }

  /** Group k of the text gives bytes 3k to 3k+2. */
  lemma {:induction false} DecodedGroupAt(p: seq<Byte>, k: nat)
    requires |p| % 4 == 0 && 4 * k + 4 <= |p|
    ensures DecodeGroups(p)[3 * k..3 * k + 3] == DecodeGroup(p[4 * k..4 * k + 4])
  {
    hide DecodeGroup;
    if k == 0 {
    } else {
      DecodedGroupAt(p[4..], k - 1);
      assert DecodeGroups(p)[3..] == DecodeGroups(p[4..]);
      RestSlice(p, 4, 4 * (k - 1), 4 * (k - 1) + 4);
      RestSlice(DecodeGroups(p), 3, 3 * (k - 1), 3 * (k - 1) + 3);
    }
  }

  /** All groups are decoded, and as many bytes dropped at the end as padding characters stand there, at most two. */
  lemma DecodedPadding(p: seq<Byte>)
    requires |p| % 4 == 0 && p != [] && forall i :: 0 <= i < |p| ==> Legal(p[i])
    ensures var n := if p[|p| - 1] != '=' as Byte then 0 else if p[|p| - 2] != '=' as Byte then 1 else 2;
            Decoded(p) == Some(DecodeGroups(p)[..|p| / 4 * 3 - n])
  {
    hide DecodeGroups, Legal;
  }

  lemma LetterValue(i: Byte)
    requires i < 64
    ensures Value(Letter(i)) == i && Letter(i) != PAD
  {
  }

  /** The alphabet of section 4 of RFC 4648: A to Z, a to z, 0 to 9, + and /. */
  lemma Alphabet(i: Byte)
    ensures Letter(0) as char == 'A' && Letter(26) as char == 'a' && Letter(52) as char == '0'
    ensures Letter(62) as char == '+' && Letter(63) as char == '/' && PAD as char == '='
    ensures i < 61 && i != 25 && i != 51 ==> Letter(i + 1) == Letter(i) + 1
  {
  }

  /** Three bytes are read as one number of 24 bits, and its four digits of six bits give the letters. */
  lemma GroupDigits(a: Byte, b: Byte, c: Byte)
    ensures var n := (a as bv24 << 16) | (b as bv24 << 8) | c as bv24;
            EncodeGroup(a, b, c) == [Letter((n >> 18) as Byte), Letter(((n >> 12) & 0x3F) as Byte),
                                     Letter(((n >> 6) & 0x3F) as Byte), Letter((n & 0x3F) as Byte)]
  {
    hide Letter;
  }

  /** A legal group is read back as four digits of six bits. */
  lemma DigitsOfGroup(g: seq<Byte>)
    requires |g| == 4 && forall i :: 0 <= i < 4 ==> Value(g[i]) < 64
    ensures var n := (Value(g[0]) as bv24 << 18) | (Value(g[1]) as bv24 << 12)
                     | (Value(g[2]) as bv24 << 6) | Value(g[3]) as bv24;
            DecodeGroup(g) == [(n >> 16) as Byte, ((n >> 8) & 0xFF) as Byte, (n & 0xFF) as Byte]
  {
    hide Value;
  }

  /** Group k of the encoding spells bytes 3k to 3k+2. */
  lemma {:induction false} GroupAt(s: seq<Byte>, k: nat)
    requires 3 * k + 3 <= |s|
    ensures 4 * k + 4 <= |Encoded(s)|
    ensures Encoded(s)[4 * k..4 * k + 4] == EncodeGroup(s[3 * k], s[3 * k + 1], s[3 * k + 2])
  {
    hide EncodeGroup;
    if k == 0 {
    } else {
      GroupAt(s[3..], k - 1);
      assert Encoded(s)[4..] == Encoded(s[3..]);
      RestSlice(Encoded(s), 4, 4 * (k - 1), 4 * (k - 1) + 4);
    }
  }

  lemma GroupFirst(p: seq<Byte>, i: nat)
    requires i + 3 <= |p|
    ensures Encoded(p[i..]) == EncodeGroup(p[i], p[i + 1], p[i + 2]) + Encoded(p[i + 3..])
  {
    hide EncodeGroup;
    assert p[i..][3..] == p[i + 3..];
  }

  lemma {:induction false} TailEncoded(s: seq<Byte>, k: nat)
    requires 3 * k <= |s|
    ensures 4 * k <= |Encoded(s)| && Encoded(s)[4 * k..] == Encoded(s[3 * k..])
  {
    hide EncodeGroup, Encoded;
    if k == 0 {
      assert s[0..] == s;
    } else {
      TailEncoded(s, k - 1);
      GroupFirst(s, 3 * (k - 1));
      assert Encoded(s)[4 * k..] == Encoded(s)[4 * (k - 1)..][4..];
    }
  }

  /** The bytes left over give two or three letters, zero bits behind them, and padding to four. */
  lemma TailAt(s: seq<Byte>, k: nat)
    requires 3 * k < |s| < 3 * k + 3
    ensures 4 * k <= |Encoded(s)|
    ensures Encoded(s)[4 * k..] ==
              if |s| == 3 * k + 1 then EncodeGroup(s[3 * k], 0, 0)[..2] + [PAD, PAD]
              else EncodeGroup(s[3 * k], s[3 * k + 1], 0)[..3] + [PAD]
  {
    hide EncodeGroup;
    TailEncoded(s, k);
  }

  lemma {:induction false} EncodedLength(s: seq<Byte>)
    ensures |Encoded(s)| == (|s| + 2) / 3 * 4
  {
    if |s| < 3 {
    } else {
      EncodedLength(s[3..]);
    }
  }

  lemma GroupBits(a: Byte, b: Byte, c: Byte)
    ensures var i0, i1 := a >> 2, ((a & 0x3) << 4) + ((b & 0xF0) >> 4);
            var i2, i3 := ((b & 0x0F) << 2) + (c >> 6), c & 0x3F;
            && i0 < 64 && i1 < 64 && i2 < 64 && i3 < 64
            && (i0 << 2) + ((i1 & 0x30) >> 4) == a
            && ((i1 & 0x0F) << 4) + ((i2 & 0x3C) >> 2) == b
            && ((i2 & 0x03) << 6) + i3 == c
  {
  }

  /** Decoding a group gives its three bytes back. */
  lemma GroupRoundTrip(a: Byte, b: Byte, c: Byte)
    ensures DecodeGroup(EncodeGroup(a, b, c)) == [a, b, c]
    ensures forall x :: x in EncodeGroup(a, b, c) ==> Legal(x) && x != PAD
  {
    hide Letter, Value;
    GroupBits(a, b, c);
    LetterValue(a >> 2);
    LetterValue(((a & 0x3) << 4) + ((b & 0xF0) >> 4));
    LetterValue(((b & 0x0F) << 2) + (c >> 6));
    LetterValue(c & 0x3F);
  }

  /** The bytes a final group is short of. */
  function Missing(n: nat): nat {
    if n % 3 == 0 then 0 else 3 - n % 3
  }

  lemma PaddedGroup(a: Byte, b: Byte)
    ensures var one, two := EncodeGroup(a, 0, 0)[..2] + [PAD, PAD], EncodeGroup(a, b, 0)[..3] + [PAD];
            && DecodeGroup(one) == [a, 0, 0] && PadCount(one) == 2
            && DecodeGroup(two) == [a, b, 0] && PadCount(two) == 1
            && (forall x :: x in one + two ==> Legal(x))
  {
    hide Letter;
    GroupRoundTrip(a, 0, 0);
    GroupRoundTrip(a, b, 0);
    LetterValue(0);
    GroupBits(a, 0, 0);
    GroupBits(a, b, 0);
    assert EncodeGroup(a, 0, 0)[2] == EncodeGroup(a, 0, 0)[3] == EncodeGroup(a, b, 0)[3] == Letter(0);
  }

  /** Decoding all groups gives the bytes, zeros where the last group was short, and counts the padding. */
  lemma {:induction false} GroupsRoundTrip(s: seq<Byte>)
    ensures |Encoded(s)| % 4 == 0 && PadCount(Encoded(s)) == Missing(|s|)
    ensures DecodeGroups(Encoded(s)) == s + Zeros(Missing(|s|))
    ensures forall i :: 0 <= i < |Encoded(s)| ==> Legal(Encoded(s)[i])
  {
    hide EncodeGroup, DecodeGroup, Legal, DecodeGroups, Zeros;
    var e := Encoded(s);
    EncodedLength(s);
    if |s| == 1 || |s| == 2 {
      ShortRoundTrip(s);
    } else if s == [] {
    } else {
      var g, rest := EncodeGroup(s[0], s[1], s[2]), Encoded(s[3..]);
      GroupRoundTrip(s[0], s[1], s[2]);
      GroupsRoundTrip(s[3..]);
      FrontGroup(g, rest);
      assert e == g + rest;
      assert s == [s[0], s[1], s[2]] + s[3..];
      assert Missing(|s|) == Missing(|s| - 3);
      assert s + Zeros(Missing(|s|)) == [s[0], s[1], s[2]] + (s[3..] + Zeros(Missing(|s[3..]|)));
    }
  }

  lemma ShortRoundTrip(s: seq<Byte>)
    requires 1 <= |s| <= 2
    ensures |Encoded(s)| == 4 && PadCount(Encoded(s)) == 3 - |s|
    ensures DecodeGroups(Encoded(s)) == s + Zeros(3 - |s|)
    ensures forall i :: 0 <= i < 4 ==> Legal(Encoded(s)[i])
  {
    hide EncodeGroup, DecodeGroup, Legal;
    var e := Encoded(s);
    PaddedGroup(s[0], if |s| == 2 then s[1] else 0);
    assert e[..4] == e && e[4..] == [];
  }

  /** A group in front without padding adds its bytes and leaves the padding count. */
  lemma FrontGroup(g: seq<Byte>, rest: seq<Byte>)
    requires |g| == 4 && |rest| % 4 == 0 && PAD !in g
    ensures DecodeGroups(g + rest) == DecodeGroup(g) + DecodeGroups(rest)
    ensures PadCount(g + rest) == PadCount(rest)
  {
    assert (g + rest)[..4] == g && (g + rest)[4..] == rest;
  }

  /** Decoding an encoding succeeds and gives the same bytes. */
  lemma RoundTrip(s: seq<Byte>)
    ensures Decoded(Encoded(s)) == Some(s)
  {
    GroupsRoundTrip(s);
    EncodedLength(s);
  }

  lemma OneGroup(p: seq<Byte>)
    requires |p| == 4 && forall i :: 0 <= i < 4 ==> Legal(p[i])
    ensures Decoded(p) == Some(DecodeGroup(p)[..3 - PadCount(p)])
  {
    assert p[..4] == p && p[4..] == [];
    assert DecodeGroups(p) == DecodeGroup(p) + [] == DecodeGroup(p);
  }

  /** The decoder is not strict: a second string, with stray bits before the padding, gives the same byte. */
  lemma NotStrict(x: seq<Byte>, y: seq<Byte>)
    requires x == [65, 65, PAD, PAD] && y == [65, 66, PAD, PAD]
    ensures Decoded(x) == Some([0]) && Decoded(y) == Some([0]) && Encoded([0]) == x
  {
    OneGroup(x);
    OneGroup(y);
    assert DecodeGroup(x)[..1] == DecodeGroup(y)[..1] == [0];
  }

  predicate Plain(g: seq<Byte>) {
    forall i :: 0 <= i < |g| ==> Legal(g[i]) && g[i] != PAD
  }

  /** Padding only at the very end, and zero bits behind the last byte. */
  predicate Strict(p: seq<Byte>) {
    if |p| <= 4 then p == [] || (|p| == 4 && StrictLast(p))
    else Plain(p[..4]) && Strict(p[4..])
  }

  predicate StrictLast(g: seq<Byte>)
    requires |g| == 4
  {
    Plain(g)
    || (Plain(g[..3]) && g[3] == PAD && Value(g[2]) & 0x03 == 0)
    || (Plain(g[..2]) && g[2] == PAD && g[3] == PAD && Value(g[1]) & 0x0F == 0)
  }

  lemma ValueLetter(c: Byte)
    requires Legal(c) && c != PAD
    ensures Value(c) < 64 && Letter(Value(c)) == c
  {
  }

  lemma BitsGroup(i0: Byte, i1: Byte, i2: Byte, i3: Byte)
    requires i0 < 64 && i1 < 64 && i2 < 64 && i3 < 64
    ensures var a, b := (i0 << 2) + ((i1 & 0x30) >> 4), ((i1 & 0x0F) << 4) + ((i2 & 0x3C) >> 2);
            var c := ((i2 & 0x03) << 6) + i3;
            && a >> 2 == i0 && ((a & 0x3) << 4) + ((b & 0xF0) >> 4) == i1
            && ((b & 0x0F) << 2) + (c >> 6) == i2 && c & 0x3F == i3
            && (i1 & 0x0F == 0 ==> ((a & 0x3) << 4) + ((0 & 0xF0) >> 4) == i1)
            && (i2 & 0x03 == 0 ==> ((b & 0x0F) << 2) + (0 >> 6) == i2)
  {
  }

  /** Re-encoding a decoded group without padding gives it back. */
  lemma PlainRoundTrip(g: seq<Byte>)
    requires |g| == 4 && Plain(g)
    ensures var d := DecodeGroup(g); EncodeGroup(d[0], d[1], d[2]) == g
  {
    hide Letter, Value;
    PlainValues(g);
    BitsGroup(Value(g[0]), Value(g[1]), Value(g[2]), Value(g[3]));
  }

  lemma PlainValues(g: seq<Byte>)
    requires Plain(g)
    ensures forall i :: 0 <= i < |g| ==> Value(g[i]) < 64 && Letter(Value(g[i])) == g[i]
  {
    forall i | 0 <= i < |g| ensures Value(g[i]) < 64 && Letter(Value(g[i])) == g[i] {
      ValueLetter(g[i]);
    }
  }

  lemma OnePadRoundTrip(g: seq<Byte>)
    requires |g| == 4 && Plain(g[..3]) && g[3] == PAD && Value(g[2]) & 0x03 == 0
    ensures var d := DecodeGroup(g); EncodeGroup(d[0], d[1], 0)[..3] == g[..3]
  {
    PadValue();
    hide Letter, Value;
    PlainValues(g[..3]);
    assert g[..3] == [g[0], g[1], g[2]];
    assert Value(g[..3][0]) == Value(g[0]) && Value(g[..3][1]) == Value(g[1]) && Value(g[..3][2]) == Value(g[2]);
    BitsGroup(Value(g[0]), Value(g[1]), Value(g[2]), 0);
  }

  lemma TwoPadRoundTrip(g: seq<Byte>)
    requires |g| == 4 && Plain(g[..2]) && g[2] == PAD && g[3] == PAD && Value(g[1]) & 0x0F == 0
    ensures var d := DecodeGroup(g); EncodeGroup(d[0], 0, 0)[..2] == g[..2]
  {
    PadValue();
    hide Letter, Value;
    PlainValues(g[..2]);
    assert g[..2] == [g[0], g[1]];
    assert Value(g[..2][0]) == Value(g[0]) && Value(g[..2][1]) == Value(g[1]);
    BitsGroup(Value(g[0]), Value(g[1]), 0, 0);
  }

  lemma PadValue()
    ensures Value(PAD) == 0 && Legal(PAD)
  {
  }

  /** Re-encoding a strict last group gives it back. */
  lemma StrictLastRoundTrip(g: seq<Byte>)
    requires |g| == 4 && StrictLast(g)
    ensures (forall i :: 0 <= i < 4 ==> Legal(g[i])) && Encoded(DecodeGroup(g)[..3 - PadCount(g)]) == g
  {
    hide EncodeGroup, DecodeGroup, Legal, Value;
    PadValue();
    var d := DecodeGroup(g);
    if Plain(g) {
      PlainRoundTrip(g);
      assert d[..3] == d && d[3..] == [];
    } else if g[2] == PAD {
      TwoPadRoundTrip(g);
      assert Legal(g[..2][0]) && Legal(g[..2][1]);
      assert g == g[..2] + [PAD, PAD] && d[..1] == [d[0]];
    } else {
      OnePadRoundTrip(g);
      assert Legal(g[..3][0]) && Legal(g[..3][1]) && Legal(g[..3][2]);
      assert g == g[..3] + [PAD] && d[..2] == [d[0], d[1]];
    }
  }

  /** Encodings are strict. */
  lemma {:induction false} EncodedStrict(s: seq<Byte>)
    ensures Strict(Encoded(s))
  {
    hide EncodeGroup, StrictLast;
    EncodedLength(s);
    if 1 <= |s| <= 2 {
      EncodedStrictLast(s);
    } else if s == [] {
    } else {
      var g := EncodeGroup(s[0], s[1], s[2]);
      GroupRoundTrip(s[0], s[1], s[2]);
      EncodedStrict(s[3..]);
      assert Encoded(s)[..4] == g && Encoded(s)[4..] == Encoded(s[3..]);
      PlainIsStrict(g);
      assert |s| == 3 ==> Encoded(s) == g;
    }
  }

  lemma PlainIsStrict(g: seq<Byte>)
    requires |g| == 4
    ensures Plain(g) ==> StrictLast(g)
  {
  }

  lemma EncodedStrictLast(s: seq<Byte>)
    requires 1 <= |s| <= 2
    ensures |Encoded(s)| == 4 && StrictLast(Encoded(s))
  {
    hide Letter, Value;
    var e, g := Encoded(s), EncodeGroup(s[0], if |s| == 2 then s[1] else 0, 0);
    GroupRoundTrip(s[0], if |s| == 2 then s[1] else 0, 0);
    LastBits(s[0], if |s| == 2 then s[1] else 0);
    assert e[..|s| + 1] == g[..|s| + 1];
    forall i | 0 <= i <= |s| ensures Legal(e[i]) && e[i] != PAD {
      assert e[i] == e[..|s| + 1][i] == g[i];
    }
  }

  /** The letter before the padding carries no stray bits. */
  lemma LastBits(a: Byte, b: Byte)
    ensures Value(EncodeGroup(a, 0, 0)[1]) & 0x0F == 0 && Value(EncodeGroup(a, b, 0)[2]) & 0x03 == 0
  {
    hide Letter, Value;
    GroupBits(a, 0, 0);
    GroupBits(a, b, 0);
    LetterValue(((a & 0x3) << 4) + ((0 & 0xF0) >> 4));
    LetterValue(((b & 0x0F) << 2) + (0 >> 6));
  }

  lemma DecodedFront(g: seq<Byte>, rest: seq<Byte>)
    requires |g| == 4 && Plain(g) && rest != [] && Decoded(rest).Some?
    ensures Decoded(g + rest) == Some(DecodeGroup(g) + Decoded(rest).value)
  {
    hide DecodeGroup, Legal, PadCount;
    FrontGroup(g, rest);
    var p, d := g + rest, DecodeGroup(g);
    forall i | 0 <= i < |p| ensures Legal(p[i]) {
      assert p[i] == if i < 4 then g[i] else rest[i - 4];
    }
    PadFits(rest);
    assert d + Decoded(rest).value == (d + DecodeGroups(rest))[..|p| / 4 * 3 - PadCount(p)];
  }

  lemma PadFits(p: seq<Byte>)
    requires |p| % 4 == 0
    ensures PadCount(p) <= |p| / 4 * 3
  {
  }

  lemma {:induction false} StrictRoundTrip(p: seq<Byte>)
    requires Strict(p)
    ensures Decoded(p).Some? && Encoded(Decoded(p).value) == p
    ensures p != [] ==> Decoded(p).value != []
  {
    hide EncodeGroup, DecodeGroup, Plain, StrictLast;
    if |p| == 4 {
      StrictLastRoundTrip(p);
      OneGroup(p);
    } else if p == [] {
    } else {
      var g, rest := p[..4], p[4..];
      StrictRoundTrip(rest);
      PlainRoundTrip(g);
      assert p == g + rest;
      DecodedFront(g, rest);
      assert (DecodeGroup(g) + Decoded(rest).value)[3..] == Decoded(rest).value;
    }
  }

  /** The other round trip, exactly on strict strings: decoding succeeds and encoding gives the string back. */
  lemma StrictExactly(p: seq<Byte>)
    ensures Strict(p) <==> Decoded(p).Some? && Encoded(Decoded(p).value) == p
  {
    hide Strict, Encoded, Decoded;
    if Strict(p) {
      StrictRoundTrip(p);
    }
    if Decoded(p).Some? && Encoded(Decoded(p).value) == p {
      EncodedStrict(Decoded(p).value);
    }
  }

  method Encode(p: seq<Byte>) returns (r: seq<Byte>)
    ensures r == Encoded(p)
  {
    hide EncodeGroup;
    var s := |p|;
    var ngroup := (s + 2) / 3;
    EncodedLength(p);
    var ret := new Byte[ngroup * 4](_ => PAD);
    PutGroups(p, ret);
    EncodedLength(p[s / 3 * 3..]);
    PutTail(ret, s / 3 * 4, p[s / 3 * 3..]);
    r := ret[..];
  }

  /** The loop over full groups. */
  method PutGroups(p: seq<Byte>, ret: array<Byte>)
    requires ret.Length == (|p| + 2) / 3 * 4 && forall k :: 0 <= k < ret.Length ==> ret[k] == PAD
    modifies ret
    ensures ret[..|p| / 3 * 4] + Encoded(p[|p| / 3 * 3..]) == Encoded(p)
    ensures forall k :: |p| / 3 * 4 <= k < ret.Length ==> ret[k] == PAD
  {
    hide EncodeGroup, Encoded;
    var g := 0;
    assert p[0..] == p;
    while g < |p| / 3
      invariant 0 <= g <= |p| / 3
      invariant ret[..4 * g] + Encoded(p[3 * g..]) == Encoded(p)
      invariant forall k :: 4 * g <= k < ret.Length ==> ret[k] == PAD
    {
      var sp := p[3 * g..];
      GroupFirst(p, 3 * g);
      ghost var before := ret[..4 * g];
      var group := EncodeGroup(sp[0], sp[1], sp[2]);
      Concatenated(before, group, Encoded(p[3 * g + 3..]));
      PutGroup(ret, 4 * g, group);
      assert ret[..4 * g + 4] == before + group;
      g := g + 1;
    }
  }

  /** The one or two bytes left over. */
  method PutTail(ret: array<Byte>, at: nat, sp: seq<Byte>)
    requires |sp| <= 2 && ret.Length == at + |Encoded(sp)|
    requires forall k :: at <= k < ret.Length ==> ret[k] == PAD
    modifies ret
    ensures ret[..] == old(ret[..at]) + Encoded(sp)
  {
    hide EncodeGroup;
    ghost var before := ret[..at];
    if |sp| == 1 {
      assert ret[at..] == [PAD, PAD, PAD, PAD];
      PutGroup(ret, at, EncodeGroup(sp[0], 0, 0)[..2]);
    } else if |sp| == 2 {
      assert ret[at..] == [PAD, PAD, PAD, PAD];
      PutGroup(ret, at, EncodeGroup(sp[0], sp[1], 0)[..3]);
    }
  }

  /** Writes the letters of a group; what lies behind them stays. */
  method PutGroup(ret: array<Byte>, at: nat, group: seq<Byte>)
    requires at + |group| <= ret.Length
    modifies ret
    ensures ret[..] == old(ret[..at]) + group + old(ret[at + |group|..])
  {
    forall i | 0 <= i < |group| {
      ret[at + i] := group[i];
    }
  }

  lemma TableValues(c: Byte)
    ensures Value(c) < 64 || Value(c) == 128
  {
  }

  /** Succeeds exactly on strings of whole groups over the alphabet and the padding character. */
  method TryDecode(p: seq<Byte>) returns (ok: bool, ret: seq<Byte>)
    ensures ok <==> |p| % 4 == 0 && forall i :: 0 <= i < |p| ==> Legal(p[i])
    ensures Decoded(p) == if ok then Some(ret) else None
  {
    ret := [];
    if |p| % 4 != 0 {
      return false, ret;
    }
    if p == [] {
      return true, ret;
    }
    var npad := 0;
    if p[|p| - 1] == PAD {
      npad := if p[|p| - 2] == PAD then 2 else 1;
    }
    hide DecodeGroups, Legal;
    ok, ret := DecodeLoop(p);
    if ok {
      ret := ret[..|ret| - npad];
    }
  }

  method DecodeLoop(p: seq<Byte>) returns (ok: bool, ret: seq<Byte>)
    requires |p| % 4 == 0
    ensures ok <==> forall i :: 0 <= i < |p| ==> Legal(p[i])
    ensures ok ==> ret == DecodeGroups(p)
  {
    hide DecodeGroup, Legal, Value;
    ret := [];
    var g := 0;
    assert p[0..] == p;
    while g < |p| / 4
      invariant 0 <= g <= |p| / 4
      invariant ret + DecodeGroups(p[4 * g..]) == DecodeGroups(p)
      invariant forall i :: 0 <= i < 4 * g ==> Legal(p[i])
    {
      var sp := p[4 * g..4 * g + 4];
      var s0, s1, s2, s3 := Value(sp[0]), Value(sp[1]), Value(sp[2]), Value(sp[3]);
      SomeIllegal(sp);
      if (s0 | s1 | s2 | s3) >= 128 {
        var i :| 0 <= i < 4 && !Legal(sp[i]);
        assert !Legal(p[4 * g + i]);
        return false, ret;
      }
      assert p[4 * g..][..4] == sp && p[4 * g..][4..] == p[4 * g + 4..];
      assert forall i :: 4 * g <= i < 4 * g + 4 ==> p[i] == sp[i - 4 * g];
      ret := ret + DecodeGroup(sp);
      g := g + 1;
    }
    assert p[4 * g..] == [];
    ok := true;
  }

  lemma SomeIllegal(g: seq<Byte>)
    requires |g| == 4
    ensures (Value(g[0]) | Value(g[1]) | Value(g[2]) | Value(g[3])) < 128
            <==> forall i :: 0 <= i < 4 ==> Legal(g[i])
  {
    hide Value;
    TableValues(g[0]);
    TableValues(g[1]);
    TableValues(g[2]);
    TableValues(g[3]);
  }
}
