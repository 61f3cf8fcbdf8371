/** The Blowfish cipher of encrypt.h: block rounds, key schedule, padding and whole strings. */
module Blowfish {
  import opened Bytes
  import opened KeyTable
  import opened Options
  import opened Sequences

  datatype Block = Block(left: Word, right: Word)

  predicate KeyOk(p: seq<Word>, s: seq<Word>) {
    |p| == 18 && |s| == 1024
  }

  function Xor(a: Word, b: Word): Word {
    a ^ b
  }

  /** Addition of 32-bit words, which wraps around. */
  function Sum(a: Word, b: Word): Word {
    a + b
  }

  lemma XorTwice(a: Word, b: Word)
    ensures Xor(Xor(a, b), b) == a
  {
  }

  lemma XorSwap(a: Word, f: Word, k: Word)
    ensures Xor(Xor(Xor(a, f), k), f) == Xor(a, k)
  {
    assert (a ^ f) ^ k == (a ^ k) ^ f;
    XorTwice(a ^ k, f);
  }

  /** One entry of each S-box, mixed; the four boxes lie one after the other in s. */
  function MixedEntries(s: seq<Word>, a: Byte, b: Byte, c: Byte, d: Byte): Word
    requires |s| == 1024
  {
    Sum(Xor(Sum(s[FromByte(a)], s[256 + FromByte(b)]), s[512 + FromByte(c)]), s[768 + FromByte(d)])
  }

  function Feistel(s: seq<Word>, value: Word): Word
    requires |s| == 1024
  {
    var memory := StoreWord(value);
    MixedEntries(s, memory[3], memory[2], memory[1], memory[0])
  }

  /** The boxes are read at the bytes of the word, the first box at the highest, and combined by wrapping sums and an
      exclusive or. */
  lemma FeistelReadsBytes(s: seq<Word>, a: Byte, b: Byte, c: Byte, d: Byte)
    requires |s| == 1024
    ensures Feistel(s, WordOf(a, b, c, d)) == MixedEntries(s, a, b, c, d)
    ensures Feistel(s, WordOf(a, b, c, d)) ==
              Sum(Xor(Sum(s[FromByte(a)], s[256 + FromByte(b)]), s[512 + FromByte(c)]), s[768 + FromByte(d)])
  {
    hide WordOf, FromByte, Sum, Xor;
    BytesOfWord(a, b, c, d);
    hide StoreWord;
  }

  /** The two operations on words. */
  lemma WordOperations(a: Word, b: Word)
    ensures Xor(a, b) == a ^ b && Sum(a, b) == a + b
  {
  }

  /** One turn of either loop: whiten, mix, swap. */
  function Round(s: seq<Word>, k: Word, x: Block): Block
    requires |s| == 1024
  {
    Block(Xor(x.right, Feistel(s, Xor(x.left, k))), Xor(x.left, k))
  }

  /** The state after i turns of the encrypting loop. */
  function EncState(p: seq<Word>, s: seq<Word>, x: Block, i: nat): Block
    requires KeyOk(p, s) && i <= 16
  {
    if i == 0 then x else Round(s, p[i - 1], EncState(p, s, x, i - 1))
  }

  /** The state after i turns of the decrypting loop. */
  function DecState(p: seq<Word>, s: seq<Word>, x: Block, i: nat): Block
    requires KeyOk(p, s) && i <= 16
  {
    if i == 0 then x else Round(s, p[18 - i], DecState(p, s, x, i - 1))
  }

  function Encrypted(p: seq<Word>, s: seq<Word>, x: Block): Block
    requires KeyOk(p, s)
  {
    var y := EncState(p, s, x, 16);
    Block(Xor(y.right, p[17]), Xor(y.left, p[16]))
  }

  function Decrypted(p: seq<Word>, s: seq<Word>, x: Block): Block
    requires KeyOk(p, s)
  {
    var y := DecState(p, s, x, 16);
    Block(Xor(y.right, p[0]), Xor(y.left, p[1]))
  }

  lemma NextHalf(p: seq<Word>, s: seq<Word>, x: Block, i: nat)
    requires KeyOk(p, s) && i < 16
    ensures var y, z := EncState(p, s, x, i), EncState(p, s, x, i + 1);
            z.right == Xor(y.left, p[i]) && z.left == Xor(y.right, Feistel(s, Xor(y.left, p[i])))
  {
    hide Feistel, Xor;
  }

  /** The classical form of the cipher: one chain of words, each the last but one mixed with what the S-boxes make of
      the last and with the next key word. The encrypted halves are its end, the left one whitened once more. */
  lemma FeistelChain(p: seq<Word>, s: seq<Word>, x: Block) returns (w: seq<Word>)
    requires KeyOk(p, s)
    ensures |w| == 17 && w[0] == Xor(x.left, p[0]) && w[1] == Xor(Xor(x.right, Feistel(s, w[0])), p[1])
    ensures forall i :: 2 <= i < 17 ==> w[i] == Xor(Xor(w[i - 2], Feistel(s, w[i - 1])), p[i])
    ensures Encrypted(p, s, x) == Block(Xor(w[15], p[17]), w[16])
  {
    hide Feistel, EncState, Xor;
    w := seq(17, i requires 0 <= i < 17 => Xor(EncState(p, s, x, i).left, p[i]));
    Start(p, s, x);
    NextHalf(p, s, x, 0);
    NextHalf(p, s, x, 15);
    forall i | 2 <= i < 17 ensures w[i] == Xor(Xor(w[i - 2], Feistel(s, w[i - 1])), p[i]) {
      NextHalf(p, s, x, i - 1);
      NextHalf(p, s, x, i - 2);
    }
  }

  lemma Start(p: seq<Word>, s: seq<Word>, x: Block)
    requires KeyOk(p, s)
    ensures EncState(p, s, x, 0) == x
  {
  }

  /** A decrypting turn with the same key undoes a turn, up to the whitening of both halves. */
  lemma UndoRound(s: seq<Word>, k: Word, k1: Word, k2: Word, y: Block)
    requires |s| == 1024
    ensures var z := Round(s, k, y);
            Round(s, k2, Block(Xor(z.right, k2), Xor(z.left, k1))) == Block(Xor(y.right, k1), Xor(y.left, k))
  {
    hide Xor, Feistel;
    XorTwice(Xor(y.left, k), k2);
    XorSwap(y.right, Feistel(s, Xor(y.left, k)), k1);
  }

  /** Decrypting walks back through the states of encrypting, each half whitened by its key. */
  lemma {:induction false} WalkBack(p: seq<Word>, s: seq<Word>, x: Block, i: nat)
    requires KeyOk(p, s) && i <= 16
    ensures var y := EncState(p, s, x, 16 - i);
            DecState(p, s, Encrypted(p, s, x), i) == Block(Xor(y.right, p[17 - i]), Xor(y.left, p[16 - i]))
  {
    hide Xor, Feistel;
    if i == 0 {
    } else {
      WalkBack(p, s, x, i - 1);
      UndoRound(s, p[16 - i], p[17 - i], p[18 - i], EncState(p, s, x, 16 - i));
    }
  }

  /** Whatever the P and S arrays hold, decrypting a block undoes encrypting it. */
  lemma DecryptInvertsEncrypt(p: seq<Word>, s: seq<Word>, x: Block)
    requires KeyOk(p, s)
    ensures Decrypted(p, s, Encrypted(p, s, x)) == x
  {
    hide Xor, Feistel;
    WalkBack(p, s, x, 16);
    XorTwice(x.left, p[0]);
    XorTwice(x.right, p[1]);
  }

  function Reversed(p: seq<Word>): (q: seq<Word>) {
    seq(|p|, i requires 0 <= i < |p| => p[|p| - 1 - i])
  }

  lemma {:induction false} DecryptIsReversedEncrypt(p: seq<Word>, s: seq<Word>, x: Block, i: nat)
    requires KeyOk(p, s) && i <= 16
    ensures DecState(p, s, x, i) == EncState(Reversed(p), s, x, i)
  {
    hide Xor, Feistel;
    if i == 0 {
    } else {
      DecryptIsReversedEncrypt(p, s, x, i - 1);
    }
  }

  /** And encrypting undoes decrypting: the cipher permutes the blocks. */
  lemma EncryptInvertsDecrypt(p: seq<Word>, s: seq<Word>, x: Block)
    requires KeyOk(p, s)
    ensures Encrypted(p, s, Decrypted(p, s, x)) == x
  {
    hide Xor, Feistel;
    var q := Reversed(p);
    assert Reversed(q) == p;
    DecryptIsReversedEncrypt(p, s, x, 16);
    DecryptIsReversedEncrypt(q, s, Encrypted(q, s, x), 16);
    DecryptInvertsEncrypt(q, s, x);
  }

  // Strings: eight bytes are two little-endian words.

  function LoadBlock(b: seq<Byte>): Block
    requires |b| == 8
  {
    Block(LoadWord(b[..4]), LoadWord(b[4..]))
  }

  function StoreBlock(x: Block): (b: seq<Byte>)
    ensures |b| == 8
  {
    StoreWord(x.left) + StoreWord(x.right)
  }

  function Transform(p: seq<Word>, s: seq<Word>, encrypt: bool, x: Block): Block
    requires KeyOk(p, s)
  {
    if encrypt then Encrypted(p, s, x) else Decrypted(p, s, x)
  }

  /** Every whole block of data replaced; a shorter rest stays as it is. */
  function MapBlocks(p: seq<Word>, s: seq<Word>, encrypt: bool, data: seq<Byte>): (out: seq<Byte>)
    requires KeyOk(p, s)
    ensures |out| == |data|
  {
    if |data| < 8 then data
    else StoreBlock(Transform(p, s, encrypt, LoadBlock(data[..8]))) + MapBlocks(p, s, encrypt, data[8..])
  }

  lemma FirstBlock(p: seq<Word>, s: seq<Word>, encrypt: bool, data: seq<Byte>)
    requires KeyOk(p, s) && |data| >= 8
    ensures MapBlocks(p, s, encrypt, data)[8..] == MapBlocks(p, s, encrypt, data[8..])
    ensures MapBlocks(p, s, encrypt, data)[..8] == StoreBlock(Transform(p, s, encrypt, LoadBlock(data[..8])))
  {
    hide Transform, LoadBlock, StoreBlock;
  }

  lemma {:induction false} MapBlocksAt(p: seq<Word>, s: seq<Word>, encrypt: bool, data: seq<Byte>, i: nat)
    requires KeyOk(p, s) && 8 * i + 8 <= |data|
    ensures MapBlocks(p, s, encrypt, data)[8 * i..8 * i + 8]
            == StoreBlock(Transform(p, s, encrypt, LoadBlock(data[8 * i..8 * i + 8])))
  {
    hide Transform, LoadBlock, StoreBlock;
    if i == 0 {
    } else {
      var out := MapBlocks(p, s, encrypt, data);
      FirstBlock(p, s, encrypt, data);
      hide MapBlocks;
      MapBlocksAt(p, s, encrypt, data[8..], i - 1);
      var at := 8 * (i - 1);
      assert 8 * i == 8 + at;
      RestSlice(data, 8, at, at + 8);
      RestSlice(out, 8, at, at + 8);
    }
  }

  /** The Encrypt loop encrypts each whole block and the Decrypt loop decrypts it. */
  lemma BlockAt(p: seq<Word>, s: seq<Word>, data: seq<Byte>, i: nat)
    requires KeyOk(p, s) && 8 * i + 8 <= |data|
    ensures MapBlocks(p, s, true, data)[8 * i..8 * i + 8]
            == StoreBlock(Encrypted(p, s, LoadBlock(data[8 * i..8 * i + 8])))
    ensures MapBlocks(p, s, false, data)[8 * i..8 * i + 8]
            == StoreBlock(Decrypted(p, s, LoadBlock(data[8 * i..8 * i + 8])))
  {
    hide Encrypted, Decrypted, MapBlocks, LoadBlock, StoreBlock;
    MapBlocksAt(p, s, true, data, i);
    MapBlocksAt(p, s, false, data, i);
  }

  lemma {:induction false} MapBlocksRest(p: seq<Word>, s: seq<Word>, encrypt: bool, data: seq<Byte>)
    requires KeyOk(p, s)
    ensures MapBlocks(p, s, encrypt, data)[|data| / 8 * 8..] == data[|data| / 8 * 8..]
  {
    hide Transform, LoadBlock, StoreBlock;
    if |data| < 8 {
    } else {
      var n := |data| / 8 * 8;
      var out := MapBlocks(p, s, encrypt, data);
      FirstBlock(p, s, encrypt, data);
      hide MapBlocks;
      MapBlocksRest(p, s, encrypt, data[8..]);
      assert |data[8..]| / 8 * 8 == n - 8;
      RestSlice(data, 8, n - 8, |data| - 8);
      RestSlice(out, 8, n - 8, |out| - 8);
    }
  }

  lemma {:induction false} MapBlocksInverse(p: seq<Word>, s: seq<Word>, encrypt: bool, data: seq<Byte>)
    requires KeyOk(p, s)
    ensures MapBlocks(p, s, !encrypt, MapBlocks(p, s, encrypt, data)) == data
  {
    if |data| < 8 {
    } else {
      var out := MapBlocks(p, s, encrypt, data);
      var x := LoadBlock(data[..8]);
      var y := Transform(p, s, encrypt, x);
      FirstBlock(p, s, encrypt, data);
      MapBlocksInverse(p, s, encrypt, data[8..]);
      BlockLoads(y);
      BlockStores(data[..8]);
      DecryptInvertsEncrypt(p, s, x);
      EncryptInvertsDecrypt(p, s, x);
      assert data == data[..8] + data[8..];
    }
  }

  /** The left half comes first. */
  lemma BlockLayout(b: seq<Byte>, x: Block)
    requires |b| == 8
    ensures LoadBlock(b) == x <==> StoreWord(x.left) == b[..4] && StoreWord(x.right) == b[4..]
  {
    hide StoreWord, LoadWord;
    StoreLoad(b[..4]);
    StoreLoad(b[4..]);
    LoadStore(x.left);
    LoadStore(x.right);
  }

  lemma BlockLoads(x: Block)
    ensures LoadBlock(StoreBlock(x)) == x
  {
    assert StoreBlock(x)[..4] == StoreWord(x.left) && StoreBlock(x)[4..] == StoreWord(x.right);
    LoadStore(x.left);
    LoadStore(x.right);
  }

  lemma BlockStores(b: seq<Byte>)
    requires |b| == 8
    ensures StoreBlock(LoadBlock(b)) == b
  {
    StoreLoad(b[..4]);
    StoreLoad(b[4..]);
    assert b == b[..4] + b[4..];
  }

  // Padding: section 6.1.1 of RFC 8018 with blocks of eight bytes.

  function PadLength(n: nat): (k: nat)
    ensures 1 <= k <= 8 && (n + k) % 8 == 0
  {
    if n % 8 == 0 then 8 else 8 - n % 8
  }

  function Padded(s: seq<Byte>): seq<Byte> {
    s + Repeat(ToByte(PadLength(|s|)), PadLength(|s|))
  }

  /** The number in the last byte, when the comparison loop would look at that many bytes. */
  function LastCount(data: seq<Byte>): nat {
    if data == [] || data[|data| - 1] > 8 then 0 else FromByte(data[|data| - 1])
  }

  ghost predicate EndsInCopies(data: seq<Byte>, n: int) {
    n <= |data| && forall i :: |data| - n <= i < |data| ==> data[i] == data[|data| - 1]
  }

  /** The comparison loop stays inside the string: it is long enough, or a byte in it stops the loop. */
  ghost predicate PaddingReadable(data: seq<Byte>) {
    LastCount(data) <= |data| || !EndsInCopies(data, |data|)
  }

  /** What `PKCS5PaddingLength` computes: the padding at the end of data, or 0. */
  ghost function PaddingLength(data: seq<Byte>): (n: nat)
    ensures n <= |data|
  {
    if EndsInCopies(data, LastCount(data)) then LastCount(data) else 0
  }

  lemma SmallBytes(b: Byte)
    ensures b <= 8 <==> FromByte(b) <= 8
    ensures b == 0 <==> FromByte(b) == 0
  {
  }

  /** The comparison loop begins turn i; a turn outside the string has no next one. */
  predicate TurnBegins(data: seq<Byte>, i: nat) {
    if i == 0 then LastCount(data) > 0
    else
      && TurnBegins(data, i - 1) && i < LastCount(data)
      && i - 1 < |data| && data[|data| - i] == data[|data| - 1]
  }

  lemma {:induction false} TurnsSoFar(data: seq<Byte>, i: nat)
    requires i <= |data|
    ensures TurnBegins(data, i) <==> i < LastCount(data) && EndsInCopies(data, i)
  {
    if i == 0 {
    } else {
      TurnsSoFar(data, i - 1);
    }
  }

  /** The loop leaves the string exactly when its bytes all agree and are too few. */
  lemma LeavesStringExactly(data: seq<Byte>)
    ensures (exists i :: i >= |data| && TurnBegins(data, i)) <==> !PaddingReadable(data)
  {
    var n := |data|;
    TurnsSoFar(data, n);
    forall i | i > n && TurnBegins(data, i) ensures false {
      NoTurnAfter(data, i);
    }
    if data == [] {
      assert LastCount(data) == 0;
    }
  }

  lemma {:induction false} NoTurnAfter(data: seq<Byte>, i: nat)
    requires i > |data|
    ensures !TurnBegins(data, i)
  {
    if i == |data| + 1 {
    } else {
      NoTurnAfter(data, i - 1);
    }
  }

  /** The one byte 8 sends the loop out of the string. */
  lemma ShortStringLeaves()
    ensures !PaddingReadable([8]) && TurnBegins([8], 1)
  {
    SmallBytes(8);
    LastByteEight();
    TurnsSoFar([8], 1);
  }

  lemma LastByteEight()
    ensures LastCount([8]) == 8
  {
    assert FromByte(8) == 8;
  }

  /** Nothing is returned exactly when the loop leaves the string; what the source does then is undefined. */
  method PKCS5PaddingLength(data: seq<Byte>) returns (n: Option<nat>)
    ensures n.None? <==> exists i :: i >= |data| && TurnBegins(data, i)
    ensures n.None? <==> !PaddingReadable(data)
    ensures n.Some? ==> n.value == PaddingLength(data)
  {
    LeavesStringExactly(data);
    if data == [] {
      return Some(0);
    }
    var length := data[|data| - 1];
    SmallBytes(length);
    if length > 0 && length <= 8 {
      var count := FromByte(length);
      var i := 0;
      while i < count
        invariant 0 <= i <= count && i <= |data|
        invariant forall j :: |data| - i <= j < |data| ==> data[j] == length
      {
        if i == |data| {
          return None;
        }
        if length != data[|data| - i - 1] {
          return Some(0);
        }
        i := i + 1;
      }
      return Some(count);
    }
    return Some(0);
  }

  lemma LastCountSmall(data: seq<Byte>)
    ensures LastCount(data) <= 8
  {
    if data != [] {
      SmallBytes(data[|data| - 1]);
    }
  }

  /** The empty string and strings of eight bytes or more, all whole blocks among them, can be examined. */
  lemma WholeBlocksReadable(data: seq<Byte>)
    ensures data == [] || |data| >= 8 ==> PaddingReadable(data)
  {
    LastCountSmall(data);
  }

  /** What a caller of `Decrypt` can see of the cipher text: it has a block, or its own bytes stop the loop. */
  ghost predicate Decryptable(src: seq<Byte>) {
    |src| >= 8 || PaddingReadable(src)
  }

  /** The deciphered text can be examined exactly when the cipher text says so: shorter than a block, it is not
      changed. */
  lemma DecryptableExactly(p: seq<Word>, s: seq<Word>, src: seq<Byte>)
    requires KeyOk(p, s)
    ensures PaddingReadable(MapBlocks(p, s, false, src)) <==> Decryptable(src)
  {
    WholeBlocksReadable(MapBlocks(p, s, false, src));
  }

  /** There is padding of n bytes exactly when the last n bytes all hold the number n, from 1 to 8. */
  lemma PaddingLengthMeans(data: seq<Byte>, n: nat)
    requires n > 0
    ensures PaddingLength(data) == n <==>
              n <= 8 && n <= |data| && forall i :: |data| - n <= i < |data| ==> FromByte(data[i]) == n
  {
    if data != [] {
      SmallBytes(data[|data| - 1]);
      forall i | 0 <= i < |data| && FromByte(data[i]) == FromByte(data[|data| - 1])
        ensures data[i] == data[|data| - 1]
      {
        ByteBack(data[i]);
        ByteBack(data[|data| - 1]);
      }
    }
  }

  lemma PaddingFound(s: seq<Byte>)
    ensures PaddingLength(Padded(s)) == PadLength(|s|) && Padded(s)[..|s|] == s && |Padded(s)| % 8 == 0
    ensures |s| < |Padded(s)| <= |s| + 8
  {
    var k := PadLength(|s|);
    ByteRoundTrip(k);
    SmallBytes(ToByte(k));
    assert Padded(s)[|Padded(s)| - 1] == ToByte(k);
  }

  function EncryptString(p: seq<Word>, s: seq<Word>, src: seq<Byte>): seq<Byte>
    requires KeyOk(p, s)
  {
    MapBlocks(p, s, true, Padded(src))
  }

  ghost function DecryptString(p: seq<Word>, s: seq<Word>, src: seq<Byte>): seq<Byte>
    requires KeyOk(p, s)
  {
    var dst := MapBlocks(p, s, false, src);
    dst[..|dst| - PaddingLength(dst)]
  }

  /** For any P and S arrays, decrypting the encryption of a string gives the string. */
  lemma StringRoundTrip(p: seq<Word>, s: seq<Word>, src: seq<Byte>)
    requires KeyOk(p, s)
    ensures DecryptString(p, s, EncryptString(p, s, src)) == src
    ensures Decryptable(EncryptString(p, s, src))
  {
    MapBlocksInverse(p, s, true, Padded(src));
    PaddingFound(src);
  }

  // The key schedule: both arrays are overwritten with the cipher's own output.

  datatype Keys = Keys(p: seq<Word>, s: seq<Word>, last: Block)

  predicate KeysOk(k: Keys) {
    KeyOk(k.p, k.s)
  }

  /** Each P entry mixed with its word of the endlessly repeated key. */
  function KeyedP(p0: seq<Word>, key: seq<Byte>): (p: seq<Word>)
    requires |p0| == 18 && key != []
    ensures |p| == 18
  {
    seq(18, i requires 0 <= i < 18 => Xor(p0[i], CyclicWord(key, i)))
  }

  function FillP(k: Keys, n: nat): (r: Keys)
    requires KeysOk(k) && n <= 9
    ensures KeysOk(r)
  {
    if n == 0 then k else
      var q := FillP(k, n - 1);
      var b := Encrypted(q.p, q.s, q.last);
      Keys(q.p[2 * n - 2 := b.left][2 * n - 1 := b.right], q.s, b)
  }

  function FillS(k: Keys, n: nat): (r: Keys)
    requires KeysOk(k) && n <= 512
    ensures KeysOk(r)
  {
    if n == 0 then k else
      var q := FillS(k, n - 1);
      var b := Encrypted(q.p, q.s, q.last);
      Keys(q.p, q.s[2 * n - 2 := b.left][2 * n - 1 := b.right], b)
  }

  function Schedule(p0: seq<Word>, s0: seq<Word>, key: seq<Byte>): (r: Keys)
    requires KeyOk(p0, s0) && key != []
    ensures KeysOk(r)
  {
    FillS(FillP(Keys(KeyedP(p0, key), s0, Block(0, 0)), 9), 512)
  }

  // The schedule as a law about the final arrays.

  lemma {:induction false} FillPShape(k: Keys, n: nat)
    requires KeysOk(k) && n <= 9
    ensures var q := FillP(k, n);
            q.s == k.s && q.p[2 * n..] == k.p[2 * n..]
            && q.last == if n == 0 then k.last else Block(q.p[2 * n - 2], q.p[2 * n - 1])
  {
    hide Encrypted;
    if n == 0 {
    } else {
      FillPShape(k, n - 1);
      assert FillP(k, n - 1).p[2 * n - 2..][2..] == k.p[2 * n - 2..][2..];
    }
  }

  lemma {:induction false} FillPKeeps(k: Keys, n: nat, m: nat)
    requires KeysOk(k) && n <= m <= 9
    ensures FillP(k, m).p[..2 * n] == FillP(k, n).p[..2 * n]
  {
    hide Encrypted;
    if m == n {
    } else {
      FillPKeeps(k, n, m - 1);
    }
  }

  lemma {:induction false} FillSShape(k: Keys, n: nat)
    requires KeysOk(k) && n <= 512
    ensures var q := FillS(k, n);
            q.p == k.p && q.s[2 * n..] == k.s[2 * n..]
            && q.last == if n == 0 then k.last else Block(q.s[2 * n - 2], q.s[2 * n - 1])
  {
    hide Encrypted;
    if n == 0 {
    } else {
      FillSShape(k, n - 1);
      assert FillS(k, n - 1).s[2 * n - 2..][2..] == k.s[2 * n - 2..][2..];
    }
  }

  lemma {:induction false} FillSKeeps(k: Keys, n: nat, m: nat)
    requires KeysOk(k) && n <= m <= 512
    ensures FillS(k, m).s[..2 * n] == FillS(k, n).s[..2 * n]
  {
    hide Encrypted;
    if m == n {
    } else {
      FillSKeeps(k, n, m - 1);
    }
  }

  /** Pair j of the final P array is the encryption of the pair before it, or of zeros, under the part of P already
      final followed by the keyed rest, and the initial S-boxes. */
  lemma PairOfP(p0: seq<Word>, s0: seq<Word>, key: seq<Byte>, j: nat)
    requires KeyOk(p0, s0) && key != [] && j < 9
    ensures var p := Schedule(p0, s0, key).p;
            Block(p[2 * j], p[2 * j + 1]) ==
              Encrypted(p[..2 * j] + KeyedP(p0, key)[2 * j..], s0,
                        if j == 0 then Block(0, 0) else Block(p[2 * j - 2], p[2 * j - 1]))
  {
    hide Encrypted, KeyedP, FillP, FillS;
    var k := Keys(KeyedP(p0, key), s0, Block(0, 0));
    FillSShape(FillP(k, 9), 512);
    FilledPair(k, j, 9);
  }

  lemma FilledPair(k: Keys, j: nat, n: nat)
    requires KeysOk(k) && j < n <= 9
    ensures var p := FillP(k, n).p;
            Block(p[2 * j], p[2 * j + 1]) ==
              Encrypted(p[..2 * j] + k.p[2 * j..], k.s, if j == 0 then k.last else Block(p[2 * j - 2], p[2 * j - 1]))
  {
    hide Encrypted, FillP;
    var p, q, next := FillP(k, n).p, FillP(k, j), FillP(k, j + 1);
    PairWritten(k, j);
    FillPShape(k, j);
    FillPKeeps(k, j, n);
    FillPKeeps(k, j + 1, n);
    assert q.p == q.p[..2 * j] + q.p[2 * j..];
    PairStored(p, next.p, j);
    EarlierPair(p, q.p, j);
  }

  lemma PairWritten(k: Keys, j: nat)
    requires KeysOk(k) && j < 9
    ensures var q, next := FillP(k, j), FillP(k, j + 1);
            Block(next.p[2 * j], next.p[2 * j + 1]) == Encrypted(q.p, q.s, q.last)
  {
    hide Encrypted;
  }

  lemma EarlierPair(x: seq<Word>, y: seq<Word>, j: nat)
    requires 2 * j <= |x| && 2 * j <= |y| && x[..2 * j] == y[..2 * j]
    ensures j > 0 ==> x[2 * j - 2] == y[2 * j - 2] && x[2 * j - 1] == y[2 * j - 1]
  {
    assert forall i :: 0 <= i < 2 * j ==> x[i] == x[..2 * j][i] && y[i] == y[..2 * j][i];
  }

  /** A keyed entry is the initial one mixed with its word of the endlessly repeated key. */
  lemma KeyedAt(p0: seq<Word>, key: seq<Byte>, i: nat)
    requires |p0| == 18 && key != [] && i < 18
    ensures KeyedP(p0, key)[i] == Xor(p0[i], CyclicWord(key, i))
  {
    hide Xor, CyclicWord;
  }

  lemma PairStored(x: seq<Word>, y: seq<Word>, j: nat)
    requires 2 * j + 2 <= |x| && 2 * j + 2 <= |y| && x[..2 * (j + 1)] == y[..2 * (j + 1)]
    ensures x[2 * j] == y[2 * j] && x[2 * j + 1] == y[2 * j + 1]
    ensures j > 0 ==> x[2 * j - 2] == y[2 * j - 2] && x[2 * j - 1] == y[2 * j - 1]
  {
    assert forall i :: 0 <= i < 2 * j + 2 ==> x[i] == x[..2 * (j + 1)][i];
    assert forall i :: 0 <= i < 2 * j + 2 ==> y[i] == y[..2 * (j + 1)][i];
  }

  /** Pair j of the final S-boxes is the encryption of the pair before it, or of the last pair of P, under the final P
      and the part of the S-boxes already final followed by the initial rest. */
  lemma PairOfS(p0: seq<Word>, s0: seq<Word>, key: seq<Byte>, j: nat)
    requires KeyOk(p0, s0) && key != [] && j < 512
    ensures var k := Schedule(p0, s0, key);
            Block(k.s[2 * j], k.s[2 * j + 1]) ==
              Encrypted(k.p, k.s[..2 * j] + s0[2 * j..],
                        if j == 0 then Block(k.p[16], k.p[17]) else Block(k.s[2 * j - 2], k.s[2 * j - 1]))
  {
    hide Encrypted, KeyedP, FillP, FillS;
    var k := FillP(Keys(KeyedP(p0, key), s0, Block(0, 0)), 9);
    FillPShape(Keys(KeyedP(p0, key), s0, Block(0, 0)), 9);
    FillSShape(k, 512);
    FilledEntries(k, j, 512);
  }

  lemma FilledEntries(k: Keys, j: nat, n: nat)
    requires KeysOk(k) && j < n <= 512
    ensures var s := FillS(k, n).s;
            Block(s[2 * j], s[2 * j + 1]) ==
              Encrypted(k.p, s[..2 * j] + k.s[2 * j..], if j == 0 then k.last else Block(s[2 * j - 2], s[2 * j - 1]))
  {
    hide Encrypted, FillS;
    var s, q, next := FillS(k, n).s, FillS(k, j), FillS(k, j + 1);
    EntriesWritten(k, j);
    FillSShape(k, j);
    FillSKeeps(k, j, n);
    FillSKeeps(k, j + 1, n);
    assert q.s == q.s[..2 * j] + q.s[2 * j..];
    PairStored(s, next.s, j);
    EarlierPair(s, q.s, j);
  }

  lemma EntriesWritten(k: Keys, j: nat)
    requires KeysOk(k) && j < 512
    ensures var q, next := FillS(k, j), FillS(k, j + 1);
            Block(next.s[2 * j], next.s[2 * j + 1]) == Encrypted(q.p, q.s, q.last)
  {
    hide Encrypted;
  }

  class Blowfish {
    const pary: array<Word>
    const sbox: array<Word>

    ghost predicate Valid()
      reads pary, sbox
    {
      pary != sbox && pary.Length == 18 && sbox.Length == 1024
    }

    ghost function P(): seq<Word>
      reads pary
    {
      pary[..]
    }

    ghost function S(): seq<Word>
      reads sbox
    {
      sbox[..]
    }

    /** p0 and s0 are the tables `initial_pary` and `initial_sbox`. */
    constructor (p0: seq<Word>, s0: seq<Word>, key: seq<Byte>)
      requires KeyOk(p0, s0) && key != []
      ensures Valid() && fresh(pary) && fresh(sbox)
      ensures P() == Schedule(p0, s0, key).p && S() == Schedule(p0, s0, key).s
    {
      pary := new Word[18](i requires 0 <= i < |p0| => p0[i]);
      sbox := new Word[1024](i requires 0 <= i < |s0| => s0[i]);
      new;
      assert P() == p0 && S() == s0;
      SetKey(key);
    }

    method EncryptBlock(x: Block) returns (y: Block)
      requires Valid()
      ensures y == Encrypted(P(), S(), x)
    {
      hide Feistel, Xor, Sum, MixedEntries, WordOf;
      y := x;
      var i := 0;
      while i < 16
        invariant 0 <= i <= 16 && y == EncState(P(), S(), x, i)
      {
        y := y.(left := Xor(y.left, pary[i]));
        var f := FeistelOf(y.left);
        y := y.(right := Xor(y.right, f));
        y := Block(y.right, y.left);
        i := i + 1;
      }
      y := Block(y.right, y.left);
      y := y.(right := Xor(y.right, pary[16]));
      y := y.(left := Xor(y.left, pary[17]));
    }

    method DecryptBlock(x: Block) returns (y: Block)
      requires Valid()
      ensures y == Decrypted(P(), S(), x)
    {
      hide Feistel, Xor, Sum, MixedEntries, WordOf;
      y := x;
      var i := 0;
      while i < 16
        invariant 0 <= i <= 16 && y == DecState(P(), S(), x, i)
      {
        y := y.(left := Xor(y.left, pary[17 - i]));
        var f := FeistelOf(y.left);
        y := y.(right := Xor(y.right, f));
        y := Block(y.right, y.left);
        i := i + 1;
      }
      y := Block(y.right, y.left);
      y := y.(right := Xor(y.right, pary[1]));
      y := y.(left := Xor(y.left, pary[0]));
    }

    /** `Feistel` through the union `Converter32`. */
    method FeistelOf(value: Word) returns (f: Word)
      requires Valid()
      ensures f == Feistel(S(), value)
      ensures forall a, b, c, d :: value == WordOf(a, b, c, d) ==>
                f == MixedEntries(S(), a, b, c, d)
    {
      hide StoreWord, FromByte, Xor, Sum, WordOf;
      var converter := StoreWord(value);
      f := Sum(sbox[FromByte(converter[3])], sbox[256 + FromByte(converter[2])]);
      f := Xor(f, sbox[512 + FromByte(converter[1])]);
      f := Sum(f, sbox[768 + FromByte(converter[0])]);
      forall a, b, c, d | value == WordOf(a, b, c, d) ensures f == MixedEntries(S(), a, b, c, d) {
        FeistelReadsBytes(S(), a, b, c, d);
      }
    }

    /** The schedule built from the short table is the one the endless key defines. */
    method SetKey(key: seq<Byte>)
      requires Valid() && key != []
      modifies pary, sbox
      ensures P() == old(Schedule(P(), S(), key).p) && S() == old(Schedule(P(), S(), key).s)
    {
      var table := MakeTable(key);
      var i := 0;
      while i < 18
        invariant 0 <= i <= 18 && S() == old(S())
        invariant forall j :: 0 <= j < i ==> pary[j] == Xor(old(pary[j]), CyclicWord(key, j))
        invariant forall j :: i <= j < 18 ==> pary[j] == old(pary[j])
        invariant forall j: nat :: table[j % table.Length] == CyclicWord(key, j)
      {
        pary[i] := Xor(pary[i], table[i % table.Length]);
        i := i + 1;
      }
      ghost var keyed := Keys(KeyedP(old(P()), key), old(S()), Block(0, 0));
      assert P() == keyed.p;
      var x := FillPary(keyed);
      FillSbox(FillP(keyed, 9), x);
    }

    method FillPary(ghost keyed: Keys) returns (x: Block)
      requires Valid() && keyed == Keys(P(), S(), Block(0, 0))
      modifies pary
      ensures Keys(P(), S(), x) == FillP(keyed, 9)
    {
      hide Encrypted;
      x := Block(0, 0);
      var i := 0;
      while i < 9
        invariant 0 <= i <= 9 && Keys(P(), S(), x) == FillP(keyed, i)
      {
        ghost var p := P();
        x := EncryptBlock(x);
        pary[i * 2] := x.left;
        pary[i * 2 + 1] := x.right;
        i := i + 1;
        assert P() == p[2 * i - 2 := x.left][2 * i - 1 := x.right];
      }
    }

    method FillSbox(ghost filled: Keys, start: Block)
      requires Valid() && filled == Keys(P(), S(), start)
      modifies sbox
      ensures P() == FillS(filled, 512).p && S() == FillS(filled, 512).s
    {
      hide Encrypted;
      var x := start;
      var i := 0;
      while i < 512
        invariant 0 <= i <= 512 && Keys(P(), S(), x) == FillS(filled, i)
      {
        ghost var s := S();
        x := EncryptBlock(x);
        sbox[i * 2] := x.left;
        sbox[i * 2 + 1] := x.right;
        i := i + 1;
        assert S() == s[2 * i - 2 := x.left][2 * i - 1 := x.right];
      }
    }

    /** The loop over the blocks of a string, in place. */
    method TransformBlocks(src: seq<Byte>, encrypt: bool) returns (dst: seq<Byte>)
      requires Valid()
      ensures dst == MapBlocks(P(), S(), encrypt, src)
    {
      hide Encrypted, Decrypted, LoadBlock, StoreBlock;
      dst := src;
      ghost var out := MapBlocks(P(), S(), encrypt, src);
      var i := 0;
      while i < |dst| / 8
        invariant 0 <= i <= |dst| / 8 && |dst| == |src|
        invariant dst[8 * i..] == src[8 * i..]
        invariant dst[..8 * i] == out[..8 * i]
      {
        var x := LoadBlock(dst[8 * i..8 * i + 8]);
        assert dst[8 * i..8 * i + 8] == dst[8 * i..][..8] == src[8 * i..8 * i + 8];
        assert dst[8 * i + 8..] == dst[8 * i..][8..] == src[8 * i + 8..];
        var y;
        if encrypt {
          y := EncryptBlock(x);
        } else {
          y := DecryptBlock(x);
        }
        MapBlocksAt(P(), S(), encrypt, src, i);
        dst := dst[..8 * i] + StoreBlock(y) + dst[8 * i + 8..];
        assert out[8 * i..8 * i + 8] == StoreBlock(y);
        assert dst[..8 * i + 8] == out[..8 * i] + StoreBlock(y) == out[..8 * i + 8];
        i := i + 1;
      }
      MapBlocksRest(P(), S(), encrypt, src);
      assert dst == dst[..8 * i] + dst[8 * i..] && out == out[..8 * i] + out[8 * i..];
    }

    method Encrypt(src: seq<Byte>) returns (dst: seq<Byte>)
      requires Valid()
      ensures dst == EncryptString(P(), S(), src)
    {
      var paddingLength := |src| % 8;
      if paddingLength == 0 {
        paddingLength := 8;
      } else {
        paddingLength := 8 - paddingLength;
      }
      dst := src;
      var i := 0;
      while i < paddingLength
        invariant 0 <= i <= paddingLength
        invariant dst == src + Repeat(ToByte(paddingLength), i)
      {
        dst := dst + [ToByte(paddingLength)];
        i := i + 1;
      }
      dst := TransformBlocks(dst, true);
    }

    /** Nothing is returned exactly on cipher texts shorter than a block whose bytes send the padding loop out. */
    method Decrypt(src: seq<Byte>) returns (dst: Option<seq<Byte>>)
      requires Valid()
      ensures dst.Some? <==> Decryptable(src)
      ensures dst.Some? ==> dst.value == DecryptString(P(), S(), src)
    {
      DecryptableExactly(P(), S(), src);
      var text := TransformBlocks(src, false);
      var paddingLength := PKCS5PaddingLength(text);
      if paddingLength == None {
        return None;
      }
      return Some(text[..|text| - paddingLength.value]);
    }
  }
}
