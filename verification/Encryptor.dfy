/** The `Encryptor` envelope of encrypt.h: magic number, length and text, enciphered together. */
module Encryptor {
  import opened Bytes
  import opened Integers
  import opened Blowfish
  import opened Options

  /** LeavesString: the padding loop of the cipher ran out of the string, and the source's behaviour is undefined. */
  datatype Result<T> = Ok(value: T) | FailedToDecipher | LeavesString

  const MAGIC: nat := 0x20020718

  /** `MAGIC`, the length as a `size_t`, the text. */
  function Sealed(str: seq<Byte>): seq<Byte> {
    LittleEndian(MAGIC, 4) + LittleEndian(|str|, SIZE_T) + str
  }

  /** What `Decrypt` makes of a deciphered string. */
  function Opened(dec: seq<Byte>): Result<seq<Byte>> {
    if |dec| < 12 then FailedToDecipher
    else if FromLittleEndian(dec[..4]) != MAGIC then FailedToDecipher
    else
      var s := FromLittleEndian(dec[4..12]);
      if s > |dec| - 12 then FailedToDecipher else Ok(dec[12..12 + s])
  }

  /** The magic number lowest byte first, the length in eight bytes, the text. */
  lemma SealedLayout(str: seq<Byte>)
    ensures |Sealed(str)| == 12 + |str| && Sealed(str)[..4] == [0x18, 0x07, 0x02, 0x20]
    ensures Sealed(str)[4..12] == LittleEndian(|str|, 8) && Sealed(str)[12..] == str
  {
    MagicBytes();
    hide LittleEndian;
  }

  lemma MagicBytes()
    ensures LittleEndian(MAGIC, 4) == [0x18, 0x07, 0x02, 0x20]
  {
    assert MAGIC / 256 == 0x200207 && MAGIC / 256 / 256 == 0x2002 && MAGIC / 256 / 256 / 256 == 0x20;
  }

  /** Bytes are determined by the number they spell. */
  lemma {:induction false} SpellOnce(bytes: seq<Byte>)
    ensures LittleEndian(FromLittleEndian(bytes), |bytes|) == bytes
  {
    if bytes == [] {
    } else {
      var rest := FromLittleEndian(bytes[1..]);
      var b := FromByte(bytes[0]);
      DivUnique(b + 256 * rest, 256, rest, b);
      SpellOnce(bytes[1..]);
      ByteBack(bytes[0]);
    }
  }

  /** A deciphered string is accepted, with text x, exactly when it starts with the sealed x. */
  lemma OpensExactlySealed(dec: seq<Byte>, x: seq<Byte>)
    requires |x| < SIZE_T_LIMIT
    ensures Opened(dec) == Ok(x) <==> Sealed(x) <= dec
  {
    hide LittleEndian, FromLittleEndian;
    Pow256Values();
    LittleEndianRoundTrip(MAGIC, 4);
    LittleEndianRoundTrip(|x|, 8);
    var head, len := LittleEndian(MAGIC, 4), LittleEndian(|x|, 8);
    if Opened(dec) == Ok(x) {
      SpellOnce(dec[..4]);
      SpellOnce(dec[4..12]);
      assert dec[..12 + |x|] == dec[..4] + dec[4..12] + dec[12..12 + |x|];
    }
    if Sealed(x) <= dec {
      assert dec[..4] == Sealed(x)[..4] == head;
      assert dec[4..12] == Sealed(x)[4..12] == len;
      assert dec[12..12 + |x|] == Sealed(x)[12..12 + |x|] == x;
    }
  }

  class Encryptor {
    const eng: Blowfish

    ghost predicate Valid()
      reads eng.pary, eng.sbox
    {
      eng.Valid()
    }

    /** What `Decrypt` sees after the cipher. */
    ghost function Deciphered(str: seq<Byte>): seq<Byte>
      requires Valid()
      reads eng.pary, eng.sbox
    {
      DecryptString(eng.P(), eng.S(), str)
    }

    constructor (p0: seq<Word>, s0: seq<Word>, key: seq<Byte>)
      requires KeyOk(p0, s0) && key != []
      ensures Valid() && fresh(eng) && fresh(eng.pary) && fresh(eng.sbox)
      ensures eng.P() == Schedule(p0, s0, key).p && eng.S() == Schedule(p0, s0, key).s
    {
      eng := new Blowfish(p0, s0, key);
    }

    /** Every encrypted text can be deciphered to itself, under every non-empty key. */
    method Encrypt(str: seq<Byte>) returns (out: seq<Byte>)
      requires Valid() && |str| < SIZE_T_LIMIT
      ensures out == EncryptString(eng.P(), eng.S(), Sealed(str))
      ensures Decryptable(out) && Opened(Deciphered(out)) == Ok(str)
    {
      var toEnc := LittleEndian(MAGIC, 4);
      toEnc := toEnc + LittleEndian(|str|, SIZE_T);
      toEnc := toEnc + str;
      out := eng.Encrypt(toEnc);
      StringRoundTrip(eng.P(), eng.S(), toEnc);
      OpensExactlySealed(toEnc, str);
    }

    /** Accepts exactly the strings that decipher to a sealed text, possibly followed by more bytes. */
    method Decrypt(str: seq<Byte>) returns (r: Result<seq<Byte>>)
      requires Valid()
      ensures r == LeavesString <==> !Decryptable(str)
      ensures Decryptable(str) ==> r == Opened(Deciphered(str))
      ensures forall x :: Decryptable(str) && |x| < SIZE_T_LIMIT ==> (r == Ok(x) <==> Sealed(x) <= Deciphered(str))
    {
      hide LittleEndian, FromLittleEndian, DecryptString, Sealed, Decryptable;
      var opt := eng.Decrypt(str);
      if opt == None {
        return LeavesString;
      }
      var dec := opt.value;
      forall x | |x| < SIZE_T_LIMIT ensures Opened(dec) == Ok(x) <==> Sealed(x) <= dec {
        OpensExactlySealed(dec, x);
      }
      if |dec| < 12 {
        return FailedToDecipher;
      }
      var magic := FromLittleEndian(dec[..4]);
      if magic != MAGIC {
        return FailedToDecipher;
      }
      var s := FromLittleEndian(dec[4..12]);
      if s > |dec| - 12 {
        return FailedToDecipher;
      }
      return Ok(dec[12..12 + s]);
    }
  }

  /** Sealing, enciphering, deciphering and opening give the text back, for every key and every table. */
  lemma EnvelopeRoundTrip(p0: seq<Word>, s0: seq<Word>, key: seq<Byte>, str: seq<Byte>)
    requires KeyOk(p0, s0) && key != [] && |str| < SIZE_T_LIMIT
    ensures var k := Schedule(p0, s0, key);
            Opened(DecryptString(k.p, k.s, EncryptString(k.p, k.s, Sealed(str)))) == Ok(str)
  {
    var k := Schedule(p0, s0, key);
    StringRoundTrip(k.p, k.s, Sealed(str));
    OpensExactlySealed(Sealed(str), str);
  }
}
