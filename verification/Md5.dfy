/** The streaming digest of encrypt.h, for any compression function, against hashing in one go. */
module Md5 {
  import opened Bytes
  import opened Integers
  import opened Sequences

  datatype Chain = Chain(a: Word, b: Word, c: Word, d: Word)

  /** `MD5Transform`: four chaining words and a 64-byte block give four chaining words. */
  type Compress = (Chain, seq<Byte>) -> Chain

  const INIT := Chain(0x67452301, 0xefcdab89, 0x98badcfe, 0x10325476)

  /** The chaining words `MD5Final` leaves behind. */
  const WIPED := Chain(0, 0, 0, 0)

  /** Compression over the whole 64-byte blocks of data. */
  function Fold(f: Compress, h: Chain, data: seq<Byte>): Chain
    decreases |data|
  {
    if |data| < 64 then h else Fold(f, f(h, data[..64]), data[64..])
  }

  function Tail(data: seq<Byte>): seq<Byte> {
    data[|data| - |data| % 64..]
  }

  lemma {:induction false} FoldAppend(f: Compress, h: Chain, x: seq<Byte>, y: seq<Byte>)
    requires |x| % 64 == 0
    ensures Fold(f, h, x + y) == Fold(f, Fold(f, h, x), y)
    decreases |x|
  {
    if x == [] {
      assert x + y == y;
    } else {
      assert (x + y)[..64] == x[..64] && (x + y)[64..] == x[64..] + y;
      FoldAppend(f, f(h, x[..64]), x[64..], y);
    }
  }

  lemma Whole(x: seq<Byte>) returns (whole: seq<Byte>)
    ensures x == whole + Tail(x) && |whole| % 64 == 0 && |Tail(x)| == |x| % 64
  {
    whole := x[..|x| - |x| % 64];
  }

  /** A block boundary anywhere determines the tail. */
  lemma TailAfter(whole: seq<Byte>, rest: seq<Byte>)
    requires |whole| % 64 == 0 && |rest| < 64
    ensures Tail(whole + rest) == rest && |whole + rest| % 64 == |rest|
  {
  }

  /** Bytes that complete the unfinished block cause one compression. */
  lemma FoldBlock(f: Compress, h: Chain, x: seq<Byte>, y: seq<Byte>)
    requires |x| % 64 + |y| == 64
    ensures Fold(f, h, x + y) == f(Fold(f, h, x), Tail(x) + y) && |x + y| % 64 == 0
  {
    var whole := Whole(x);
    hide Tail;
    assert x + y == whole + (Tail(x) + y);
    FoldAppend(f, h, whole, Tail(x));
    FoldAppend(f, h, whole, Tail(x) + y);
    OneBlock(f, Fold(f, h, whole), Tail(x) + y);
  }

  lemma OneBlock(f: Compress, h: Chain, block: seq<Byte>)
    requires |block| == 64
    ensures Fold(f, h, block) == f(h, block)
  {
    assert block[..64] == block;
  }

  /** Bytes that do not complete it only lengthen the tail. */
  lemma FoldShort(f: Compress, h: Chain, x: seq<Byte>, y: seq<Byte>)
    requires |x| % 64 + |y| < 64
    ensures Fold(f, h, x + y) == Fold(f, h, x) && Tail(x + y) == Tail(x) + y && |x + y| % 64 == |x| % 64 + |y|
  {
    var whole := Whole(x);
    hide Tail;
    assert x + y == whole + (Tail(x) + y);
    FoldAppend(f, h, whole, Tail(x));
    FoldAppend(f, h, whole, Tail(x) + y);
    TailAfter(whole, Tail(x) + y);
  }

  /** Sections 3.1 and 3.2 of RFC 1321. */
  function Padded(msg: seq<Byte>): seq<Byte> {
    msg + ([0x80] + Zeros(ZeroCount(|msg|)) + LengthBytes(|msg|))
  }

  /** As many zeros as bring the length to 56 modulo 64. */
  function ZeroCount(n: nat): (z: nat)
    ensures z == if n % 64 < 56 then 55 - n % 64 else 119 - n % 64
  {
    (119 - n % 64) % 64
  }

  function LengthBytes(n: nat): (b: seq<Byte>)
    ensures |b| == 8
  {
    LittleEndian(8 * n % SIZE_T_LIMIT, 8)
  }

  function DigestBytes(h: Chain): seq<Byte> {
    StoreWord(h.a) + StoreWord(h.b) + StoreWord(h.c) + StoreWord(h.d)
  }

  /** A message hashed in one go from given chaining words. */
  function DigestFrom(f: Compress, h: Chain, msg: seq<Byte>): seq<Byte> {
    DigestBytes(Fold(f, h, Padded(msg)))
  }

  /** The digest of a message. */
  function OneShot(f: Compress, msg: seq<Byte>): seq<Byte> {
    DigestFrom(f, INIT, msg)
  }

  /** The padded message: the message, the marker, as few zeros as fill up to whole blocks, the length in bits. */
  lemma PaddedLayout(msg: seq<Byte>)
    ensures var n, q := |msg|, Padded(msg);
            && |q| % 64 == 0 && n + 9 <= |q| < n + 73
            && q[..n] == msg && q[n] == 0x80 && q[|q| - 8..] == LittleEndian(8 * n % SIZE_T_LIMIT, 8)
            && forall i :: n < i < |q| - 8 ==> q[i] == 0
  {
    hide LittleEndian;
    WholePadding(|msg|);
  }

  lemma WholePadding(n: nat)
    ensures (n + 9 + ZeroCount(n)) % 64 == 0 && ZeroCount(n) < 64
  {
    var q, r := n / 64, n % 64;
    DivUnique(n + 9 + ZeroCount(n), 64, if r < 56 then q + 1 else q + 2, 0);
  }

  // The bit counter: two 32-bit words and a carry.

  /** The two counter words hold the length in bits, modulo 2^64. */
  ghost predicate Counts(high: nat, low: nat, n: nat) {
    high * TWO32 + low == 8 * n % SIZE_T_LIMIT
  }

  lemma CounterCarry(t: nat, high: nat, len: nat)
    requires t < TWO32 && high < TWO32 && len < TWO32
    ensures var low := (t + len * 8 % TWO32) % TWO32;
            var carried := if low < t then (high + 1) % TWO32 else high;
            (carried + len / 0x2000_0000) % TWO32 * TWO32 + low == (high * TWO32 + t + 8 * len) % SIZE_T_LIMIT
  {
    var x, q := len * 8 % TWO32, len / 0x2000_0000;
    EightTimes(len);
    Wrap(t + x);
    Wrap(high + 1);
    var c := if t + x >= TWO32 then 1 else 0;
    WrapSum(high + c, q);
    TwoWords(high + c + q, t + x - c * TWO32);
  }

  lemma EightTimes(len: nat)
    ensures 8 * len == len / 0x2000_0000 * TWO32 + len * 8 % TWO32
  {
  }

  lemma Wrap(a: nat)
    requires a < 2 * TWO32
    ensures a % TWO32 == if a < TWO32 then a else a - TWO32
  {
  }

  lemma WrapSum(a: nat, b: nat)
    ensures (a % TWO32 + b) % TWO32 == (a + b) % TWO32
  {
    assert a + b == a / TWO32 * TWO32 + (a % TWO32 + b);
  }

  lemma TwoWords(h: nat, low: nat)
    requires low < TWO32
    ensures (h * TWO32 + low) % SIZE_T_LIMIT == h % TWO32 * TWO32 + low
  {
    assert h * TWO32 + low == h / TWO32 * SIZE_T_LIMIT + (h % TWO32 * TWO32 + low);
  }

  lemma CounterSum(a: nat, b: nat)
    ensures (a % SIZE_T_LIMIT + b) % SIZE_T_LIMIT == (a + b) % SIZE_T_LIMIT
  {
    assert a + b == a / SIZE_T_LIMIT * SIZE_T_LIMIT + (a % SIZE_T_LIMIT + b);
  }

  /** One Update's worth of bits, with the carry as the source computes it. */
  lemma CountsStep(high: nat, t: nat, len: nat, n: nat)
    requires t < TWO32 && high < TWO32 && len < TWO32 && Counts(high, t, n)
    ensures var low := (t + len * 8 % TWO32) % TWO32;
            var carried := if low < t then (high + 1) % TWO32 else high;
            Counts((carried + len / 0x2000_0000) % TWO32, low, n + len)
  {
    CounterCarry(t, high, len);
    CounterSum(8 * n, 8 * len);
  }

  /** The number of bytes in the block comes back from the low word. */
  lemma CounterOffset(n: nat, high: nat, low: nat)
    requires low < TWO32 && Counts(high, low, n)
    ensures low / 8 % 64 == n % 64
  {
    var q := 8 * n / SIZE_T_LIMIT;
    assert 8 * n == q * SIZE_T_LIMIT + (high * TWO32 + low);
    LowWord(n, q * TWO32 + high, low);
  }

  lemma LowWord(n: nat, k: nat, low: nat)
    requires 8 * n == k * TWO32 + low
    ensures low / 8 % 64 == n % 64
  {
    var m := n - k * 0x2000_0000;
    DivUnique(low, 8, m, 0);
    SameRemainder(n, m, 64, k * 0x80_0000);
  }

  /** `Update` hands its size on as 32 bits: the counter then still counts every byte exactly when nothing is cut off
      that the counter, modulo 2^64 bits, would notice. Below 2^61 bytes that means a size below 2^32. */
  lemma TruncatedCount(n: nat, s: nat)
    ensures 8 * (n + s % TWO32) % SIZE_T_LIMIT == 8 * (n + s) % SIZE_T_LIMIT <==> s % 0x2000_0000_0000_0000 < TWO32
    ensures s < 0x2000_0000_0000_0000 ==>
              (8 * (n + s % TWO32) % SIZE_T_LIMIT == 8 * (n + s) % SIZE_T_LIMIT <==> s < TWO32)
  {
    var turns, rest := s / 0x2000_0000_0000_0000, s % 0x2000_0000_0000_0000;
    var k, low := rest / TWO32, rest % TWO32;
    DivUnique(s, TWO32, turns * 0x2000_0000 + k, low);
    var a, b := 8 * (n + low), 8 * (n + s);
    assert b == a + 8 * TWO32 * k + SIZE_T_LIMIT * turns;
    ShiftedRemainder(a, b, 8 * TWO32 * k, turns);
  }

  lemma ShiftedRemainder(a: nat, b: nat, d: nat, turns: nat)
    requires b == a + d + SIZE_T_LIMIT * turns && d < SIZE_T_LIMIT
    ensures a % SIZE_T_LIMIT == b % SIZE_T_LIMIT <==> d == 0
  {
    var q, r := a / SIZE_T_LIMIT, a % SIZE_T_LIMIT;
    if r + d < SIZE_T_LIMIT {
      DivUnique(b, SIZE_T_LIMIT, q + turns, r + d);
    } else {
      DivUnique(b, SIZE_T_LIMIT, q + turns + 1, r + d - SIZE_T_LIMIT);
    }
  }

  lemma CounterBytes(low: nat, high: nat)
    requires low < TWO32 && high < TWO32
    ensures LittleEndian(high * TWO32 + low, 8) == LittleEndian(low, 4) + LittleEndian(high, 4)
  {
    assert Pow256(2) == 0x1_0000;
    assert Pow256(4) == 256 * (256 * Pow256(2));
    LittleEndianSplit(low, high, 4, 4);
  }

  /** The padded message ends in one more block, or in two; `PadStart` is the last one without its length. */
  function PadStart(f: Compress, h0: Chain, msg: seq<Byte>): (r: (Chain, seq<Byte>))
    ensures |r.1| == 56
  {
    var c, h := |msg| % 64, Fold(f, h0, msg);
    if c < 56 then (h, Tail(msg) + [0x80] + Zeros(55 - c))
    else (f(h, Tail(msg) + [0x80] + Zeros(63 - c)), Zeros(56))
  }

  lemma PaddedBlocks(f: Compress, h0: Chain, msg: seq<Byte>)
    ensures var (h, start) := PadStart(f, h0, msg);
            Fold(f, h0, Padded(msg)) == f(h, start + LengthBytes(|msg|))
  {
    hide Fold, LengthBytes, ZeroCount, Tail;
    var c, length := |msg| % 64, LengthBytes(|msg|);
    if c < 56 {
      var pad := [0x80] + Zeros(55 - c);
      FoldBlock(f, h0, msg, pad + length);
      assert Tail(msg) + (pad + length) == Tail(msg) + [0x80] + Zeros(55 - c) + length;
    } else {
      var pad, last := [0x80] + Zeros(63 - c), Zeros(56) + length;
      FoldBlock(f, h0, msg, pad);
      FoldBlock(f, h0, msg + pad, last);
      assert [0x80] + Zeros(119 - c) + length == pad + last;
      assert msg + (pad + last) == (msg + pad) + last;
      WholeTail(msg + pad);
      assert Tail(msg + pad) + last == last;
      assert Tail(msg) + pad == Tail(msg) + [0x80] + Zeros(63 - c);
    }
  }

  lemma WholeTail(x: seq<Byte>)
    ensures |Tail(x)| == |x| % 64
  {
  }

  /** What is left of a buffer whose size is handed on as 32 bits. */
  function Low32(data: seq<Byte>): seq<Byte> {
    data[..|data| % TWO32]
  }

  lemma ShortIsLow(data: seq<Byte>)
    ensures |data| < TWO32 ==> Low32(data) == data
  {
  }

  lemma EmptyFold(f: Compress, h: Chain)
    ensures Fold(f, h, []) == h
  {
  }

  lemma NothingCounted()
    ensures Tail([]) == [] && Counts(0, 0, 0)
  {
    CountsNothing();
    hide Counts;
    var x: seq<Byte> := [];
    assert Tail(x) == x[0..];
  }

  lemma CountsNothing()
    ensures Counts(0, 0, 0)
  {
    DivUnique(0, SIZE_T_LIMIT, 0, 0);
  }

  /** memcpy into a fixed buffer. */
  method CopyInto(dst: array<Byte>, at: nat, src: seq<Byte>)
    requires at + |src| <= dst.Length
    modifies dst
    ensures dst[..] == old(dst[..at]) + src + old(dst[at + |src|..])
  {
    forall i | 0 <= i < |src| {
      dst[at + i] := src[i];
    }
  }

  class MD5 {
    const compress: Compress
    const input: array<Byte>
    var buf: Chain
    var bits0: nat
    var bits1: nat
    /** The chaining words the message is hashed from. */
    ghost var start: Chain

    ghost predicate Valid()
      reads this, input
    {
      input.Length == 64 && bits0 < TWO32 && bits1 < TWO32
    }

    /** The context after reading exactly msg. */
    ghost predicate HasRead(msg: seq<Byte>)
      reads this, input
    {
      Valid()
      && buf == Fold(compress, start, msg)
      && input[..|msg| % 64] == Tail(msg)
      && Counts(bits1, bits0, |msg|)
    }

    constructor MD5Init(compress: Compress)
      ensures HasRead([]) && start == INIT && this.compress == compress && fresh(input)
    {
      this.compress := compress;
      input := new Byte[64];
      buf, bits0, bits1, start := INIT, 0, 0, INIT;
      new;
      EmptyFold(compress, INIT);
    }

    /** The salted constructor `MD5(salt)`. */
    static method Salted(compress: Compress, salt: seq<Byte>) returns (m: MD5)
      ensures fresh(m) && fresh(m.input) && m.compress == compress
      ensures m.HasRead(Low32(salt)) && m.start == INIT
    {
      hide Fold, Tail, Counts, Low32;
      m := new MD5.MD5Init(compress);
      ShortIsLow(salt);
      if salt != [] {
        m.Update(salt, []);
        assert [] + Low32(salt) == Low32(salt);
      }
    }

    method Transform()
      requires Valid()
      modifies this`buf
      ensures buf == compress(old(buf), input[..])
    {
      buf := compress(buf, input[..]);
    }

    /** Advances the bit counter; returns the bytes already in the block. */
    method CountBits(len: nat, ghost n: nat) returns (t: nat)
      requires Valid() && len < TWO32 && Counts(bits1, bits0, n)
      modifies this`bits0, this`bits1
      ensures Valid() && Counts(bits1, bits0, n + len)
      ensures t == n % 64
    {
      hide Counts;
      CountsStep(bits1, bits0, len, n);
      CounterOffset(n, bits1, bits0);
      t := bits0;
      bits0 := (t + len * 8 % TWO32) % TWO32;
      if bits0 < t {
        bits1 := (bits1 + 1) % TWO32;
      }
      bits1 := (bits1 + len / 0x2000_0000) % TWO32;
      t := t / 8 % 64;
    }

    /** Reads data, a buffer whose length fits 32 bits. */
    method MD5Update(data: seq<Byte>, ghost msg: seq<Byte>)
      requires HasRead(msg) && |data| < TWO32
      modifies this, input
      ensures HasRead(msg + data) && start == old(start)
    {
      hide Fold, Tail, Counts;
      var t := CountBits(|data|, |msg|);
      Absorb(data, t, msg);
    }

    method Absorb(data: seq<Byte>, t: nat, ghost msg: seq<Byte>)
      requires Valid() && t == |msg| % 64
      requires buf == Fold(compress, start, msg) && input[..t] == Tail(msg)
      modifies this`buf, input
      ensures buf == Fold(compress, start, msg + data) && input[..|msg + data| % 64] == Tail(msg + data)
    {
      hide Fold, Tail;
      if t != 0 && |data| < 64 - t {
        FoldShort(compress, start, msg, data);
        CopyInto(input, t, data);
        return;
      }
      if t != 0 {
        var from := 64 - t;
        FillBlock(data[..from], t, msg);
        assert msg + data == msg + data[..from] + data[from..];
        AbsorbWhole(data[from..], msg + data[..from]);
      } else {
        AbsorbWhole(data, msg);
      }
    }

    /** Completes the unfinished block. */
    method FillBlock(head: seq<Byte>, t: nat, ghost msg: seq<Byte>)
      requires Valid() && t == |msg| % 64 && t + |head| == 64
      requires buf == Fold(compress, start, msg) && input[..t] == Tail(msg)
      modifies this`buf, input
      ensures buf == Fold(compress, start, msg + head)
    {
      hide Fold, Tail;
      FoldBlock(compress, start, msg, head);
      CopyInto(input, t, head);
      assert input[..] == Tail(msg) + head;
      Transform();
    }

    /** The loop over whole blocks, then the bytes left over, with no unfinished block before. */
    method AbsorbWhole(data: seq<Byte>, ghost msg: seq<Byte>)
      requires Valid() && |msg| % 64 == 0 && buf == Fold(compress, start, msg)
      modifies this`buf, input
      ensures buf == Fold(compress, start, msg + data) && input[..|msg + data| % 64] == Tail(msg + data)
    {
      hide Fold, Tail;
      var off := 0;
      ghost var read := msg;
      assert msg + data == read + data[0..];
      while |data| - off >= 64
        invariant 0 <= off <= |data| && |read| % 64 == 0
        invariant read + data[off..] == msg + data
        invariant buf == Fold(compress, start, read)
      {
        var block := data[off..off + 64];
        FoldBlock(compress, start, read, block);
        WholeTail(read);
        assert Tail(read) + block == block;
        CopyInto(input, 0, block);
        assert input[..] == block;
        Transform();
        assert data[off..] == block + data[off + 64..];
        assert read + data[off..] == read + block + data[off + 64..];
        read := read + block;
        off := off + 64;
      }
      FoldShort(compress, start, read, data[off..]);
      CopyInto(input, 0, data[off..]);
      WholeTail(read);
      assert Tail(read) + data[off..] == data[off..];
    }

    /** The marker and the zeros; a full block in between when the length does not fit. */
    method PadBlock(count: nat, ghost msg: seq<Byte>)
      requires HasRead(msg) && count == |msg| % 64
      modifies this`buf, input
      ensures (buf, input[..56]) == PadStart(compress, start, msg)
    {
      hide Fold;
      input[count] := 0x80;
      assert input[..count + 1] == Tail(msg) + [0x80];
      if 63 - count < 8 {
        CopyInto(input, count + 1, Zeros(63 - count));
        assert input[..] == Tail(msg) + [0x80] + Zeros(63 - count);
        Transform();
        CopyInto(input, 0, Zeros(56));
        assert input[..56] == Zeros(56);
      } else {
        CopyInto(input, count + 1, Zeros(55 - count));
        assert input[..56] == Tail(msg) + [0x80] + Zeros(55 - count);
      }
    }

    /** Pads, digests and wipes the context, which is then as if it had read nothing, but from other chaining words. */
    method MD5Final(ghost msg: seq<Byte>) returns (digest: seq<Byte>)
      requires HasRead(msg)
      modifies this, input
      ensures digest == DigestFrom(compress, old(start), msg)
      ensures Valid() && buf == WIPED && bits0 == 0 && bits1 == 0 && input[..] == Zeros(64)
      ensures HasRead([]) && start == WIPED
    {
      hide Fold, LittleEndian, PadStart, Padded, DigestBytes, Tail;
      CounterOffset(|msg|, bits1, bits0);
      CounterBytes(bits0, bits1);
      var count := bits0 / 8 % 64;
      PadBlock(count, msg);
      ghost var front, length := input[..56], LittleEndian(bits0, 4) + LittleEndian(bits1, 4);
      PaddedBlocks(compress, start, msg);
      CopyInto(input, 56, LittleEndian(bits0, 4));
      CopyInto(input, 60, LittleEndian(bits1, 4));
      assert input[..] == front + length;
      Transform();
      digest := DigestBytes(buf);
      buf, bits0, bits1, start := WIPED, 0, 0, WIPED;
      CopyInto(input, 0, Zeros(64));
      EmptyFold(compress, WIPED);
      NothingCounted();
    }

    /** Hands the size on as 32 bits, so only that many bytes are read. */
    method Update(data: seq<Byte>, ghost msg: seq<Byte>)
      requires HasRead(msg)
      modifies this, input
      ensures HasRead(msg + Low32(data)) && start == old(start)
      ensures |data| < TWO32 ==> HasRead(msg + data)
      ensures |data| % 0x2000_0000_0000_0000 >= TWO32 ==> !HasRead(msg + data)
    {
      hide Fold, Tail;
      ShortIsLow(data);
      TruncatedCount(|msg|, |data|);
      assert Counts(bits1, bits0, |msg|);
      MD5Update(Low32(data), msg);
    }

    method GetDigest(ghost msg: seq<Byte>) returns (digest: seq<Byte>)
      requires HasRead(msg)
      modifies this, input
      ensures digest == DigestFrom(compress, old(start), msg)
      ensures old(start) == INIT ==> digest == OneShot(compress, msg)
      ensures HasRead([]) && start == WIPED
    {
      digest := MD5Final(msg);
    }
  }

  /** The static `MD5::Encrypt`: text, then salt. */
  method Encrypt(compress: Compress, str: seq<Byte>, salt: seq<Byte>) returns (digest: seq<Byte>)
    ensures digest == OneShot(compress, Low32(str) + Low32(salt))
  {
    hide Fold, Tail, Counts, Low32;
    var context := new MD5.MD5Init(compress);
    ShortIsLow(salt);
    assert [] + Low32(str) == Low32(str);
    context.Update(str, []);
    if salt != [] {
      context.Update(salt, Low32(str));
    }
    assert salt == [] ==> Low32(str) + Low32(salt) == Low32(str);
    digest := context.MD5Final(Low32(str) + Low32(salt));
  }

  /** However a message is split into calls of Update, the digest is that of the whole message. */
  method DigestOfChunks(compress: Compress, chunks: seq<seq<Byte>>) returns (digest: seq<Byte>)
    requires forall i :: 0 <= i < |chunks| ==> |chunks[i]| < TWO32
    ensures digest == OneShot(compress, Flatten(chunks))
  {
    var context := new MD5.MD5Init(compress);
    var i := 0;
    while i < |chunks|
      invariant 0 <= i <= |chunks| && fresh(context) && fresh(context.input)
      invariant context.compress == compress && context.start == INIT && context.HasRead(Flatten(chunks[..i]))
    {
      assert chunks[..i + 1][..i] == chunks[..i];
      context.Update(chunks[i], Flatten(chunks[..i]));
      i := i + 1;
    }
    assert chunks[..i] == chunks;
    digest := context.GetDigest(Flatten(chunks));
  }

  /** After GetDigest an object digests on, but its second message is hashed from zero chaining words. */
  method UseTwice(compress: Compress, a: seq<Byte>, b: seq<Byte>) returns (first: seq<Byte>, second: seq<Byte>)
    requires |a| < TWO32 && |b| < TWO32
    ensures first == OneShot(compress, a) && second == DigestFrom(compress, WIPED, b)
  {
    hide Fold, Tail, Counts, DigestFrom;
    var context := new MD5.MD5Init(compress);
    context.Update(a, []);
    assert [] + a == a && [] + b == b;
    first := context.GetDigest(a);
    context.Update(b, []);
    second := context.GetDigest(b);
  }

  /** Hashing from other chaining words gives the digest of a message, whatever the compression, exactly when those
      words are `INIT`: on an object that GetDigest was not called on before. */
  lemma DigestRightExactly(start: Chain, msg: seq<Byte>)
    ensures (forall f: Compress :: DigestFrom(f, start, msg) == OneShot(f, msg)) <==> start == INIT
  {
    if start != INIT {
      var keep: Compress := (h: Chain, block: seq<Byte>) => h;
      DigestsDiffer(keep, start, INIT, msg);
      assert DigestFrom(keep, start, msg) != OneShot(keep, msg);
    }
  }

  /** The failing case: the second use of an object, on any message at all, with the compression that returns its
      chaining words. */
  lemma SecondDigestFails(keep: Compress, msg: seq<Byte>)
    requires forall h, block :: keep(h, block) == h
    ensures DigestFrom(keep, WIPED, msg) != OneShot(keep, msg)
  {
    DigestsDiffer(keep, WIPED, INIT, msg);
  }

  lemma SameDigest(g: Chain, h: Chain)
    ensures DigestBytes(g) == DigestBytes(h) ==> g == h
  {
    hide StoreWord, LoadWord;
    Quarters(StoreWord(g.a), StoreWord(g.b), StoreWord(g.c), StoreWord(g.d));
    Quarters(StoreWord(h.a), StoreWord(h.b), StoreWord(h.c), StoreWord(h.d));
    LoadStore(g.a); LoadStore(g.b); LoadStore(g.c); LoadStore(g.d);
    LoadStore(h.a); LoadStore(h.b); LoadStore(h.c); LoadStore(h.d);
  }

  lemma Quarters(a: seq<Byte>, b: seq<Byte>, c: seq<Byte>, d: seq<Byte>)
    requires |a| == |b| == |c| == |d| == 4
    ensures var all := a + b + c + d; all[0..4] == a && all[4..8] == b && all[8..12] == c && all[12..16] == d
  {
  }

  // Two compressions that show what the others hide.

  lemma {:induction false} KeptFold(keep: Compress, h: Chain, data: seq<Byte>)
    requires forall x, block :: keep(x, block) == x
    ensures Fold(keep, h, data) == h
    decreases |data|
  {
    if |data| < 64 {
    } else {
      KeptFold(keep, h, data[64..]);
    }
  }

  /** With the compression that returns its chaining words, every digest is the initial words, lowest byte first. */
  lemma KeptDigest(keep: Compress, msg: seq<Byte>)
    requires forall x, block :: keep(x, block) == x
    ensures OneShot(keep, msg) == [0x01, 0x23, 0x45, 0x67, 0x89, 0xab, 0xcd, 0xef,
                                   0xfe, 0xdc, 0xba, 0x98, 0x76, 0x54, 0x32, 0x10]
  {
    KeptFold(keep, INIT, Padded(msg));
    InitialBytes();
    hide DigestBytes;
  }

  lemma InitialBytes()
    ensures DigestBytes(INIT) == [0x01, 0x23, 0x45, 0x67, 0x89, 0xab, 0xcd, 0xef,
                                  0xfe, 0xdc, 0xba, 0x98, 0x76, 0x54, 0x32, 0x10]
  {
  }

  function FirstWords(block: seq<Byte>): Chain
    requires |block| == 64
  {
    Chain(LoadWord(block[..4]), LoadWord(block[4..8]), LoadWord(block[8..12]), LoadWord(block[12..16]))
  }

  lemma FirstBytes(block: seq<Byte>)
    requires |block| == 64
    ensures DigestBytes(FirstWords(block)) == block[..16]
  {
    hide LoadWord, StoreWord;
    StoreLoad(block[..4]);
    StoreLoad(block[4..8]);
    StoreLoad(block[8..12]);
    StoreLoad(block[12..16]);
    assert block[..16] == block[..4] + block[4..8] + block[8..12] + block[12..16];
  }

  lemma ShortPadded(msg: seq<Byte>)
    requires |msg| < 16
    ensures |Padded(msg)| == 64 && Padded(msg)[..16] == msg + [0x80] + Zeros(15 - |msg|)
  {
    var q := Padded(msg);
    PaddedLayout(msg);
    hide Padded, LittleEndian;
    assert |q| == 64;
    assert forall i :: 0 <= i < |msg| ==> q[..|msg|][i] == q[i];
  }

  /** With the compression that returns the first sixteen bytes of its block as words, the digest of a short message
      is the message, the marker and zeros. */
  lemma ShownDigest(show: Compress, msg: seq<Byte>)
    requires |msg| < 16 && forall h, block :: |block| == 64 ==> show(h, block) == FirstWords(block)
    ensures OneShot(show, msg) == msg + [0x80] + Zeros(15 - |msg|)
  {
    hide FirstWords, DigestBytes, Padded, Fold;
    ShortPadded(msg);
    OneBlock(show, INIT, Padded(msg));
    FirstBytes(Padded(msg));
  }

  /** A compression that keeps chaining words apart keeps the digests of a message apart too. */
  lemma DigestsDiffer(f: Compress, g: Chain, h: Chain, msg: seq<Byte>)
    requires (forall x, y, block :: x != y ==> f(x, block) != f(y, block)) && g != h
    ensures DigestFrom(f, g, msg) != DigestFrom(f, h, msg)
  {
    hide Fold, Padded, DigestBytes;
    FoldsDiffer(f, g, h, Padded(msg));
    SameDigest(Fold(f, g, Padded(msg)), Fold(f, h, Padded(msg)));
  }

  lemma {:induction false} FoldsDiffer(f: Compress, g: Chain, h: Chain, data: seq<Byte>)
    requires (forall x, y, block :: x != y ==> f(x, block) != f(y, block)) && g != h
    ensures Fold(f, g, data) != Fold(f, h, data)
    decreases |data|
  {
    if |data| < 64 {
    } else {
      FoldsDiffer(f, f(g, data[..64]), f(h, data[..64]), data[64..]);
    }
  }
}
