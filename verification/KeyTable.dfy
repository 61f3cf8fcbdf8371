/** The short key table of Blowfish's key schedule (encrypt.h): its length comes from a gcd. */
module KeyTable {
  import opened Bytes
  import opened Integers

  predicate Divides(d: nat, n: nat) {
    d > 0 && n % d == 0
  }

  predicate CommonDivisor(d: nat, a: nat, b: nat) {
    Divides(d, a) && Divides(d, b)
  }

  /** The positive common divisor that every common divisor divides. */
  ghost predicate IsGcd(g: nat, a: nat, b: nat) {
    CommonDivisor(g, a, b) && forall d: nat :: CommonDivisor(d, a, b) ==> Divides(d, g)
  }

  lemma Rearrange(a: nat, b: nat, c: nat, d: nat)
    ensures (a * b) * (c * d) == (a * c) * (b * d)
  {
  }

  lemma ModPeriod(length: nat, m: nat, x: nat)
    requires length > 0
    ensures (length * m + x) % length == x % length
  {
    assert x == length * (x / length) + x % length;
    Distribute(length, m, -(x / length));
    DivUnique(length * m + x, length, m + x / length, x % length);
  }

  /** d divides a sum of multiples exactly when it divides the rest. */
  lemma DividesRest(d: nat, b: nat, q: nat, r: nat)
    requires Divides(d, b)
    ensures Divides(d, b * q + r) <==> Divides(d, r)
  {
    assert b * q == d * (b / d * q) by {
      assert b == d * (b / d);
      Rearrange(d, b / d, 1, q);
    }
    ModPeriod(d, b / d * q, r);
  }

  /** A step of the loop keeps the common divisors. */
  lemma SameDivisors(d: nat, a: nat, b: nat)
    requires b > 0
    ensures CommonDivisor(d, a, b) <==> CommonDivisor(d, b, a % b)
  {
    assert a == b * (a / b) + a % b;
    if Divides(d, b) {
      DividesRest(d, b, a / b, a % b);
    }
  }

  method GCD(larger: nat, smaller: nat) returns (gcd: nat)
    requires smaller > 0
    ensures IsGcd(gcd, larger, smaller)
  {
    gcd := smaller;
    var prev: nat := larger;
    var next: nat := prev % gcd;
    while next != 0
      invariant gcd > 0 && next == prev % gcd
      invariant forall d: nat :: CommonDivisor(d, prev, gcd) <==> CommonDivisor(d, larger, smaller)
      decreases gcd
    {
      forall d: nat ensures CommonDivisor(d, prev, gcd) <==> CommonDivisor(d, gcd, next) {
        SameDivisors(d, prev, gcd);
      }
      prev := gcd;
      gcd := next;
      next := prev % gcd;
    }
    assert Divides(gcd, gcd);
    assert CommonDivisor(gcd, prev, gcd);
  }

  /** The word whose bytes, highest first, are a, b, c, d. */
  function WordOf(a: Byte, b: Byte, c: Byte, d: Byte): Word {
    (a as Word << 24) | (b as Word << 16) | (c as Word << 8) | d as Word
  }

  /** Word i of the key repeated without end. */
  function CyclicWord(key: seq<Byte>, i: nat): Word
    requires key != []
  {
    WordOf(key[(4 * i) % |key|], key[(4 * i + 1) % |key|], key[(4 * i + 2) % |key|], key[(4 * i + 3) % |key|])
  }

  /** Word i takes the next four key bytes, the first as its highest. */
  lemma CyclicBytes(key: seq<Byte>, i: nat)
    requires key != []
    ensures StoreWord(CyclicWord(key, i)) ==
              [key[(4 * i + 3) % |key|], key[(4 * i + 2) % |key|], key[(4 * i + 1) % |key|], key[4 * i % |key|]]
  {
    BytesOfWord(key[4 * i % |key|], key[(4 * i + 1) % |key|], key[(4 * i + 2) % |key|], key[(4 * i + 3) % |key|]);
  }

  lemma BytesOfWord(a: Byte, b: Byte, c: Byte, d: Byte)
    ensures StoreWord(WordOf(a, b, c, d)) == [d, c, b, a]
  {
    StoreLoad([d, c, b, a]);
    assert LoadWord([d, c, b, a]) == WordOf(a, b, c, d);
  }

  /** The repeated key has period |key| / gcd(|key|, 4) words. */
  lemma WordPeriod(length: nat, g: nat, i: nat, k: nat)
    requires length > 0 && IsGcd(g, length, 4)
    ensures length / g > 0
    ensures (4 * i + k) % length == (4 * (i % (length / g)) + k) % length
  {
    Factors(g, length);
    Factors(g, 4);
    hide IsGcd;
    WordsRepeat(length, g, length / g, 4 / g, i, k);
  }

  lemma Factors(g: nat, a: nat)
    requires a > 0 && Divides(g, a)
    ensures a == g * (a / g) && a / g > 0
  {
  }

  lemma WordsRepeat(length: nat, g: nat, n: nat, h: nat, i: nat, k: nat)
    requires length > 0 && n > 0 && length == g * n && 4 == g * h
    ensures (4 * i + k) % length == (4 * (i % n) + k) % length
  {
    var q, r := i / n, i % n;
    Rearrange(g, h, n, q);
    assert 4 * (n * q) == length * (h * q);
    assert 4 * i + k == length * (h * q) + (4 * r + k) by {
      assert i == n * q + r;
    }
    ModPeriod(length, h * q, 4 * r + k);
  }

  /** The table of `SetKey`: short, but at `i % table.Length` it holds word i of the endless key. */
  method MakeTable(key: seq<Byte>) returns (table: array<Word>)
    requires key != []
    ensures fresh(table) && table.Length > 0
    ensures forall i: nat :: table[i % table.Length] == CyclicWord(key, i)
  {
    var g := GCD(|key|, 4);
    WordPeriod(|key|, g, 0, 0);
    var length := |key| / g;
    table := new Word[length];
    var i := 0;
    while i < length
      invariant 0 <= i <= length
      invariant forall j :: 0 <= j < i ==> table[j] == CyclicWord(key, j)
    {
      table[i] := WordOf(key[(i * 4) % |key|], key[(i * 4 + 1) % |key|],
                         key[(i * 4 + 2) % |key|], key[(i * 4 + 3) % |key|]);
      i := i + 1;
    }
    forall i: nat ensures table[i % table.Length] == CyclicWord(key, i) {
      WordPeriod(|key|, g, i, 0);
      WordPeriod(|key|, g, i, 1);
      WordPeriod(|key|, g, i, 2);
      WordPeriod(|key|, g, i, 3);
    }
  }
}
