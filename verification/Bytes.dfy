/** Bytes and little-endian words, as the host lays them out in memory. */
module Bytes {
  import opened Integers

  type Byte = bv8

  function ToByte(n: nat): Byte
    requires n < 256
  {
    n as bv8
  }

  function FromByte(b: Byte): (n: nat)
    ensures n < 256
  {
    b as nat
  }

  lemma ByteBack(b: Byte)
    ensures ToByte(FromByte(b)) == b
  {
  }

  lemma ByteSuccessor(b: Byte)
    requires b != 255
    ensures FromByte(b + 1) == FromByte(b) + 1
  {
  }

  /** Every number below 256 is the value of some byte. */
  lemma {:induction false} ByteOf(n: nat) returns (b: Byte)
    requires n < 256
    ensures FromByte(b) == n
  {
    b := 0;
    if n == 0 {
    } else {
      b := ByteOf(n - 1);
      ByteBack(b);
      assert b != 255;
      ByteSuccessor(b);
      b := b + 1;
    }
  }

  lemma ByteRoundTrip(n: nat)
    requires n < 256
    ensures FromByte(ToByte(n)) == n
  {
    var b := ByteOf(n);
    ByteBack(b);
  }

  function Pow256(k: nat): (p: nat)
    ensures p > 0
  {
    if k == 0 then 1 else 256 * Pow256(k - 1)
  }

  const TWO32: nat := 0x1_0000_0000

  /** `sizeof(size_t)`, and the number of values of the type. */
  const SIZE_T: nat := 8
  const SIZE_T_LIMIT: nat := 0x1_0000_0000_0000_0000

  lemma Pow256Values()
    ensures Pow256(4) == 0x1_0000_0000 && Pow256(8) == SIZE_T_LIMIT
  {
    assert Pow256(2) == 0x1_0000;
    assert Pow256(4) == 256 * (256 * Pow256(2));
    assert Pow256(6) == 256 * (256 * Pow256(4));
    assert Pow256(8) == 256 * (256 * Pow256(6));
  }

  /** The k low bytes of n, lowest first. */
  function LittleEndian(n: nat, k: nat): (bytes: seq<Byte>)
    ensures |bytes| == k
  {
    if k == 0 then [] else [ToByte(n % 256)] + LittleEndian(n / 256, k - 1)
  }

  function FromLittleEndian(bytes: seq<Byte>): nat {
    if bytes == [] then 0 else FromByte(bytes[0]) + 256 * FromLittleEndian(bytes[1..])
  }

  /** Byte i of a spelling is digit i of the number to the base 256. */
  lemma {:induction false} LittleEndianAt(n: nat, k: nat, i: nat)
    requires i < k
    ensures LittleEndian(n, k)[i] == ToByte(n / Pow256(i) % 256)
  {
    if i == 0 {
    } else {
      LittleEndianAt(n / 256, k - 1, i - 1);
      DivTwice(n, 256, Pow256(i - 1));
    }
  }

  /** Storing a number in k bytes and loading it again keeps it modulo 256^k. */
  lemma {:induction false} LittleEndianRoundTrip(n: nat, k: nat)
    ensures FromLittleEndian(LittleEndian(n, k)) == n % Pow256(k)
  {
    if k == 0 {
    } else {
      ByteRoundTrip(n % 256);
      LittleEndianRoundTrip(n / 256, k - 1);
      ModSplit(n, Pow256(k - 1));
      assert LittleEndian(n, k)[1..] == LittleEndian(n / 256, k - 1);
    }
  }

  lemma ModSplit(n: nat, p: nat)
    requires p > 0
    ensures n % (256 * p) == n % 256 + 256 * (n / 256 % p)
  {
    var q, r := n / 256 / p, n / 256 % p;
    assert n / 256 == p * q + r;
    assert n == (256 * p) * q + (256 * r + n % 256);
    assert 256 * r + n % 256 < 256 * p;
    DivUnique(n, 256 * p, q, 256 * r + n % 256);
  }

  lemma ScaleOut(a: nat, p: nat)
    ensures a * (256 * p) == 256 * (a * p)
  {
  }

  /** A longer spelling is a shorter one followed by the spelling of the quotient. */
  lemma {:induction false} LittleEndianSplit(low: nat, high: nat, j: nat, k: nat)
    requires low < Pow256(j)
    ensures LittleEndian(high * Pow256(j) + low, j + k) == LittleEndian(low, j) + LittleEndian(high, k)
  {
    if j == 0 {
    } else {
      var n, p := high * Pow256(j) + low, Pow256(j - 1);
      ScaleOut(high, p);
      DivUnique(n, 256, high * p + low / 256, low % 256);
      LittleEndianSplit(low / 256, high, j - 1, k);
    }
  }

  function Repeat(b: Byte, n: nat): (r: seq<Byte>)
    ensures |r| == n && forall i :: 0 <= i < n ==> r[i] == b
  {
    seq(n, _ => b)
  }

  function Zeros(n: nat): (z: seq<Byte>)
    ensures |z| == n && forall i :: 0 <= i < n ==> z[i] == 0
  {
    Repeat(0, n)
  }

  type Word = bv32

  function LoadWord(b: seq<Byte>): Word
    requires |b| == 4
  {
    b[0] as Word | (b[1] as Word << 8) | (b[2] as Word << 16) | (b[3] as Word << 24)
  }

  function StoreWord(w: Word): (b: seq<Byte>)
    ensures |b| == 4
  {
    [(w & 0xff) as Byte, ((w >> 8) & 0xff) as Byte, ((w >> 16) & 0xff) as Byte, ((w >> 24) & 0xff) as Byte]
  }

  /** The lowest byte of a word comes first. */
  lemma WordValue(b: seq<Byte>)
    requires |b| == 4
    ensures LoadWord(b) ==
              b[0] as Word + 0x100 * (b[1] as Word) + 0x1_0000 * (b[2] as Word) + 0x100_0000 * (b[3] as Word)
  {
  }

  lemma StoreLoad(b: seq<Byte>)
    requires |b| == 4
    ensures StoreWord(LoadWord(b)) == b
  {
  }

  lemma LoadStore(w: Word)
    ensures LoadWord(StoreWord(w)) == w
  {
  }
}
