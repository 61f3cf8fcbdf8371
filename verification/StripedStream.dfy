/** Multi-disk files (multi_disk_stream.h): one flat file striped chunk by chunk over n parts. */
module StripedStream {
  import opened Bytes
  import opened Integers

  function Min(a: nat, b: nat): nat {
    if a < b then a else b
  }

  /** The number of files and the chunk size. */
  datatype Layout = Layout(n: nat, chunk: nat) {
    predicate Ok() {
      n > 0 && chunk > 0
    }
  }

  /** Chunk k of a flat file; the last one may be short. */
  function Chunk(l: Layout, flat: seq<Byte>, k: nat): seq<Byte>
    requires l.Ok() && k * l.chunk <= |flat|
  {
    flat[k * l.chunk..Min(k * l.chunk + l.chunk, |flat|)]
  }

  /** Chunks k, k + n, k + 2n, ... in order: for k < n, what part k of the file holds. */
  function PartFrom(l: Layout, flat: seq<Byte>, k: nat): seq<Byte>
    requires l.Ok()
    decreases |flat| - k
  {
    if k * l.chunk >= |flat| then []
    else
      AtLeastOne(k, l.chunk);
      Chunk(l, flat, k) + PartFrom(l, flat, k + l.n)
  }

  lemma AtLeastOne(k: nat, c: nat)
    requires c > 0
    ensures k * c >= k
  {
  }

  /** The striped form of a flat file. */
  function Striped(l: Layout, flat: seq<Byte>): (parts: seq<seq<Byte>>)
    requires l.Ok()
    ensures |parts| == l.n
  {
    seq(l.n, p requires 0 <= p < l.n => PartFrom(l, flat, p))
  }

  /** The part that receives the byte at an offset. */
  function PartAt(l: Layout, off: nat): (p: nat)
    requires l.Ok()
    ensures p < l.n
  {
    off / l.chunk % l.n
  }

  /** Bytes of x still fit into the chunk at the end of flat. */
  predicate FitsChunk(l: Layout, flat: seq<Byte>, x: seq<Byte>)
    requires l.Ok()
  {
    |flat| % l.chunk + |x| <= l.chunk
  }

  lemma ChunkStart(l: Layout, size: nat)
    requires l.Ok()
    ensures size == size / l.chunk * l.chunk + size % l.chunk
    ensures forall k: nat :: k < size / l.chunk ==> k * l.chunk + l.chunk <= size
    ensures forall k: nat :: k > size / l.chunk ==> k * l.chunk >= size / l.chunk * l.chunk + l.chunk > size
  {
    forall k: nat | k < size / l.chunk ensures k * l.chunk + l.chunk <= size {
      MulMono(k + 1, size / l.chunk, l.chunk);
    }
    forall k: nat | k > size / l.chunk
      ensures k * l.chunk >= size / l.chunk * l.chunk + l.chunk > size
    {
      MulMono(size / l.chunk + 1, k, l.chunk);
    }
  }

  lemma MulMono(a: nat, b: nat, c: nat)
    requires a <= b
    ensures a * c <= b * c
    ensures (a + 1) * c == a * c + c
  {
  }

  lemma Residues(k: nat, last: nat, n: nat)
    requires n > 0
    ensures (k + n) % n == k % n
    ensures k < last && k % n == last % n ==> k + n <= last
  {
    DivUnique(k + n, n, k / n + 1, k % n);
    if k < last && k % n == last % n {
      Distribute(n, last / n, k / n);
      if last / n <= k / n {
        MulMono(last / n, k / n, n);
      } else {
        AtLeast(n, last / n - k / n);
      }
    }
  }

  /** The last chunk takes the bytes; behind it nothing is stored. */
  lemma LastPart(l: Layout, flat: seq<Byte>, x: seq<Byte>, k: nat)
    requires l.Ok() && FitsChunk(l, flat, x) && k >= |flat| / l.chunk
    ensures PartFrom(l, flat + x, k) == PartFrom(l, flat, k) + if k == |flat| / l.chunk then x else []
  {
    ChunkStart(l, |flat|);
    var last := |flat| / l.chunk;
    MulMono(last + 1, k + l.n, l.chunk);
    MulMono(last, last, l.chunk);
    if k > last {
      MulMono(last + 1, k, l.chunk);
    } else if k * l.chunk < |flat + x| {
      assert Chunk(l, flat + x, k) == flat[k * l.chunk..] + x;
      assert PartFrom(l, flat + x, k) == Chunk(l, flat + x, k) + PartFrom(l, flat + x, k + l.n);
      assert PartFrom(l, flat + x, k + l.n) == [] == PartFrom(l, flat, k + l.n);
      assert PartFrom(l, flat, k) == flat[k * l.chunk..];
    }
  }

  lemma FullChunk(l: Layout, flat: seq<Byte>, k: nat)
    requires l.Ok() && k < |flat| / l.chunk
    ensures k * l.chunk + l.chunk <= |flat|
    ensures PartFrom(l, flat, k) == flat[k * l.chunk..k * l.chunk + l.chunk] + PartFrom(l, flat, k + l.n)
  {
    ChunkStart(l, |flat|);
  }

  lemma LongerQuotient(a: nat, b: nat, c: nat)
    requires c > 0 && a <= b
    ensures a / c <= b / c
  {
    if b / c < a / c {
      MulMono(b / c + 1, a / c, c);
    }
  }

  /** A chunk in front of what changes stays. */
  lemma AppendBehind(l: Layout, flat: seq<Byte>, x: seq<Byte>, k: nat, y: seq<Byte>)
    requires l.Ok() && k < |flat| / l.chunk
    requires PartFrom(l, flat + x, k + l.n) == PartFrom(l, flat, k + l.n) + y
    ensures PartFrom(l, flat + x, k) == PartFrom(l, flat, k) + y
  {
    hide PartFrom;
    LongerQuotient(|flat|, |flat + x|, l.chunk);
    FullChunk(l, flat, k);
    FullChunk(l, flat + x, k);
    var from := k * l.chunk;
    assert (flat + x)[from..from + l.chunk] == flat[from..from + l.chunk];
  }

  /** Appending within a chunk appends to the part that owns the chunk and to no other. */
  lemma {:induction false} AppendPart(l: Layout, flat: seq<Byte>, x: seq<Byte>, k: nat)
    requires l.Ok() && FitsChunk(l, flat, x)
    ensures PartFrom(l, flat + x, k) == PartFrom(l, flat, k)
            + if k <= |flat| / l.chunk && k % l.n == PartAt(l, |flat|) then x else []
    decreases |flat| / l.chunk - k
  {
    hide PartFrom, FitsChunk;
    var last := |flat| / l.chunk;
    if k < last {
      Residues(k, last, l.n);
      AppendPart(l, flat, x, k + l.n);
      AppendBehind(l, flat, x, k, if k + l.n <= last && (k + l.n) % l.n == PartAt(l, |flat|) then x else []);
    } else {
      LastPart(l, flat, x, k);
    }
  }

  lemma AppendPartOf(l: Layout, flat: seq<Byte>, x: seq<Byte>, q: nat)
    requires l.Ok() && FitsChunk(l, flat, x) && q < l.n
    ensures PartFrom(l, flat + x, q)
            == if q == PartAt(l, |flat|) then PartFrom(l, flat, q) + x else PartFrom(l, flat, q)
  {
    hide PartFrom;
    AppendPart(l, flat, x, q);
    DivUnique(q, l.n, 0, q);
    ModAtMost(|flat| / l.chunk, l.n);
  }

  /** The striped form after appending within a chunk. */
  lemma AppendStriped(l: Layout, flat: seq<Byte>, x: seq<Byte>)
    requires l.Ok() && FitsChunk(l, flat, x)
    ensures var p := PartAt(l, |flat|);
            Striped(l, flat + x) == Striped(l, flat)[p := Striped(l, flat)[p] + x]
  {
    hide PartFrom, PartAt;
    forall q | 0 <= q < l.n
      ensures PartFrom(l, flat + x, q)
              == if q == PartAt(l, |flat|) then PartFrom(l, flat, q) + x else PartFrom(l, flat, q)
    {
      AppendPartOf(l, flat, x, q);
    }
  }

  lemma ModAtMost(k: nat, n: nat)
    requires n > 0
    ensures k % n <= k
  {
  }

  class OutputMultiDiskStream {
    const layout: Layout
    var files: seq<seq<Byte>>
    var size: nat

    /** The parts hold exactly the striped form of the bytes written so far. */
    ghost predicate Holds(flat: seq<Byte>)
      reads this
    {
      layout.Ok() && size == |flat| && files == Striped(layout, flat)
    }

    constructor (n: nat, chunk: nat)
      requires n > 0 && chunk > 0
      ensures Holds([]) && layout == Layout(n, chunk)
    {
      layout := Layout(n, chunk);
      files, size := seq(n, _ => []), 0;
    }

    method Write(buffer: seq<Byte>, ghost flat: seq<Byte>)
      requires Holds(flat)
      modifies this
      ensures Holds(flat + buffer)
    {
      var written := 0;
      assert flat + buffer[..0] == flat;
      while written < |buffer|
        invariant 0 <= written <= |buffer|
        invariant Holds(flat + buffer[..written])
      {
        var part := size / layout.chunk % layout.n;
        var partOff := size % layout.chunk;
        var s := Min(|buffer| - written, layout.chunk - partOff);
        var x := buffer[written..written + s];
        AppendStriped(layout, flat + buffer[..written], x);
        assert flat + buffer[..written] + x == flat + buffer[..written + s];
        files := files[part := files[part] + x];
        size := size + s;
        written := written + s;
      }
      assert buffer[..written] == buffer;
    }
  }

  // Reading.

  /** What `Seek` computes for part p: whole rounds of chunks, then the chunks of the round begun. */
  function SeekOffset(l: Layout, off: nat, p: nat): nat
    requires l.Ok()
  {
    var blocks := Blocks(l, off);
    PartOffset(l, Rounds(l, blocks), InRound(l, blocks), InChunk(l, off), p)
  }

  function Blocks(l: Layout, off: nat): nat
    requires l.Ok()
  {
    off / l.chunk
  }

  function InChunk(l: Layout, off: nat): nat
    requires l.Ok()
  {
    off % l.chunk
  }

  function Rounds(l: Layout, blocks: nat): nat
    requires l.Ok()
  {
    blocks / l.n
  }

  function InRound(l: Layout, blocks: nat): nat
    requires l.Ok()
  {
    blocks % l.n
  }

  lemma NextByte(l: Layout, off: nat)
    requires l.Ok()
    ensures InChunk(l, off) < l.chunk
    ensures if InChunk(l, off) + 1 < l.chunk
            then Blocks(l, off + 1) == Blocks(l, off) && InChunk(l, off + 1) == InChunk(l, off) + 1
            else Blocks(l, off + 1) == Blocks(l, off) + 1 && InChunk(l, off + 1) == 0
  {
    StepDiv(off, l.chunk);
  }

  lemma NextBlock(l: Layout, blocks: nat)
    requires l.Ok()
    ensures InRound(l, blocks) < l.n
    ensures if InRound(l, blocks) + 1 < l.n
            then Rounds(l, blocks + 1) == Rounds(l, blocks) && InRound(l, blocks + 1) == InRound(l, blocks) + 1
            else Rounds(l, blocks + 1) == Rounds(l, blocks) + 1 && InRound(l, blocks + 1) == 0
  {
    StepDiv(blocks, l.n);
  }

  lemma PartIsInRound(l: Layout, off: nat)
    requires l.Ok()
    ensures PartAt(l, off) == InRound(l, Blocks(l, off))
  {
  }

  /** The same from the number of whole rounds, the chunks of the next round and the bytes of the last chunk. */
  function PartOffset(l: Layout, rounds: nat, chunks: nat, bytes: nat, p: nat): nat {
    rounds * l.chunk + if p < chunks then l.chunk else if p == chunks then bytes else 0
  }

  lemma NextOffset(l: Layout, rounds: nat, chunks: nat, bytes: nat, p: nat)
    requires l.Ok() && p < l.n && chunks < l.n && bytes < l.chunk
    ensures PartOffset(l, rounds, chunks, bytes, p) + (if p == chunks then 1 else 0)
            == if bytes + 1 < l.chunk then PartOffset(l, rounds, chunks, bytes + 1, p)
               else if chunks + 1 < l.n then PartOffset(l, rounds, chunks + 1, 0, p)
               else PartOffset(l, rounds + 1, 0, 0, p)
  {
    MulMono(rounds, rounds, l.chunk);
  }

  /** One more byte moves the offset of its own part by one. */
  lemma SeekStep(l: Layout, off: nat, p: nat)
    requires l.Ok() && p < l.n
    ensures SeekOffset(l, off + 1, p) == SeekOffset(l, off, p) + if p == PartAt(l, off) then 1 else 0
  {
    hide PartOffset, PartAt, Blocks, InChunk, Rounds, InRound;
    var blocks := Blocks(l, off);
    NextByte(l, off);
    NextBlock(l, blocks);
    PartIsInRound(l, off);
    NextOffset(l, Rounds(l, blocks), InRound(l, blocks), InChunk(l, off), p);
  }

  lemma OneByteFits(l: Layout, flat: seq<Byte>, b: Byte)
    requires l.Ok()
    ensures FitsChunk(l, flat, [b])
  {
  }

  /** `Seek` puts every part's cursor behind exactly the logical bytes before the offset that it stores. */
  lemma {:induction false} SeekOffsetIsLength(l: Layout, flat: seq<Byte>, p: nat)
    requires l.Ok() && p < l.n
    ensures SeekOffset(l, |flat|, p) == |PartFrom(l, flat, p)|
  {
    hide PartFrom, PartAt, SeekOffset;
    if flat == [] {
      EmptyOffset(l, p);
    } else {
      var n := |flat| - 1;
      SeekOffsetIsLength(l, flat[..n], p);
      OneByteFits(l, flat[..n], flat[n]);
      assert flat == flat[..n] + [flat[n]];
      AppendPartOf(l, flat[..n], [flat[n]], p);
      SeekStep(l, n, p);
    }
  }

  lemma EmptyOffset(l: Layout, p: nat)
    requires l.Ok()
    ensures SeekOffset(l, 0, p) == 0 && PartFrom(l, [], p) == []
  {
    DivUnique(0, l.chunk, 0, 0);
    DivUnique(0, l.n, 0, 0);
    MulMono(0, p, l.chunk);
  }

  /** What is stored of a prefix is a prefix of what is stored. */
  lemma {:induction false} PrefixPart(l: Layout, flat: seq<Byte>, i: nat, p: nat)
    requires l.Ok() && i <= |flat| && p < l.n
    ensures PartFrom(l, flat[..i], p) <= PartFrom(l, flat, p)
    decreases |flat| - i
  {
    hide PartFrom, PartAt;
    if i == |flat| {
      assert flat[..i] == flat;
    } else {
      PrefixPart(l, flat, i + 1, p);
      OneByteFits(l, flat[..i], flat[i]);
      assert flat[..i + 1] == flat[..i] + [flat[i]];
      AppendPartOf(l, flat[..i], [flat[i]], p);
    }
  }

  /** The striping in one formula: byte b of chunk k, and chunk c of round r, is at byte b of chunk r of part c. */
  lemma ByteAt(l: Layout, flat: seq<Byte>, off: nat, k: nat, b: nat, r: nat, c: nat, at: nat)
    requires l.Ok() && off < |flat| && off == l.chunk * k + b && b < l.chunk
    requires k == l.n * r + c && c < l.n && at == r * l.chunk + b
    ensures var part := Striped(l, flat)[c]; at < |part| && part[at] == flat[off]
  {
    DivUnique(off, l.chunk, k, b);
    DivUnique(k, l.n, r, c);
    ByteInPart(l, flat, off, c);
    SeekOffsetIsLength(l, flat[..off], c);
    assert SeekOffset(l, off, c) == at;
  }

  lemma ByteInPart(l: Layout, flat: seq<Byte>, off: nat, q: nat)
    requires l.Ok() && off < |flat| && q == PartAt(l, off)
    ensures var at, part := |PartFrom(l, flat[..off], q)|, Striped(l, flat)[q]; at < |part| && part[at] == flat[off]
  {
    hide PartFrom, PartAt;
    OneByteFits(l, flat[..off], flat[off]);
    assert flat[..off + 1] == flat[..off] + [flat[off]];
    AppendPartOf(l, flat[..off], [flat[off]], q);
    PrefixPart(l, flat, off + 1, q);
    var before := PartFrom(l, flat[..off], q);
    assert PartFrom(l, flat, q)[..|before| + 1] == before + [flat[off]];
  }

  function Sum(parts: seq<seq<Byte>>): nat {
    if parts == [] then 0 else Sum(parts[..|parts| - 1]) + |parts[|parts| - 1]|
  }

  lemma {:induction false} SumUpdate(parts: seq<seq<Byte>>, p: nat, x: seq<Byte>)
    requires p < |parts|
    ensures Sum(parts[p := x]) == Sum(parts) - |parts[p]| + |x|
  {
    var n := |parts| - 1;
    if p == n {
      assert parts[p := x][..n] == parts[..n];
    } else {
      assert parts[p := x][..n] == parts[..n][p := x];
      SumUpdate(parts[..n], p, x);
    }
  }

  lemma {:induction false} SumOfEmpty(n: nat)
    ensures Sum(seq(n, _ => [])) == 0
  {
    if n == 0 {
    } else {
      SumOfEmpty(n - 1);
      assert seq(n, _ => [])[..n - 1] == seq<seq<Byte>>(n - 1, _ => []);
    }
  }

  /** The part sizes add up to the size of the flat file. */
  lemma {:induction false} TotalSize(l: Layout, flat: seq<Byte>)
    requires l.Ok()
    ensures Sum(Striped(l, flat)) == |flat|
  {
    hide PartFrom, PartAt;
    if flat == [] {
      SumOfEmpty(l.n);
      forall p | 0 <= p < l.n ensures Striped(l, flat)[p] == [] {
        EmptyOffset(l, p);
      }
      assert Striped(l, flat) == seq(l.n, _ => []);
    } else {
      var n := |flat| - 1;
      TotalSize(l, flat[..n]);
      OneByteFits(l, flat[..n], flat[n]);
      assert flat == flat[..n] + [flat[n]];
      AppendStriped(l, flat[..n], [flat[n]]);
      SumUpdate(Striped(l, flat[..n]), PartAt(l, n), Striped(l, flat[..n])[PartAt(l, n)] + [flat[n]]);
    }
  }

  /** A part as an ideal file: up to n bytes from the cursor. */
  function PartRead(part: seq<Byte>, cursor: nat, n: nat): seq<Byte> {
    if cursor >= |part| then [] else part[cursor..Min(cursor + n, |part|)]
  }

  /** The bytes one turn of the reading loop asks for, and gets when they are there. */
  function ToRead(l: Layout, off: nat, want: nat): nat
    requires l.Ok()
  {
    Min(want, l.chunk - off % l.chunk)
  }

  lemma ChunkFits(l: Layout, off: nat, want: nat, flat: seq<Byte>, x: seq<Byte>)
    requires l.Ok() && |flat| == off && |x| <= ToRead(l, off, want)
    ensures FitsChunk(l, flat, x)
  {
  }

  lemma ReadBehind(part: seq<Byte>, before: seq<Byte>, x: seq<Byte>, ask: nat)
    requires before + x <= part && (|x| == ask || (|x| < ask && before + x == part))
    ensures PartRead(part, |before|, ask) == x
  {
  }

  /** From consistent cursors, one read returns the next logical bytes, up to the end of the file. */
  lemma PartReadGives(l: Layout, flat: seq<Byte>, off: nat, want: nat)
    requires l.Ok() && off <= |flat|
    ensures var n := Min(ToRead(l, off, want), |flat| - off);
            var cursor := |PartFrom(l, flat[..off], PartAt(l, off))|;
            && PartRead(Striped(l, flat)[PartAt(l, off)], cursor, ToRead(l, off, want)) == flat[off..off + n]
            && FitsChunk(l, flat[..off], flat[off..off + n])
  {
    hide PartFrom, PartAt, FitsChunk, ToRead, PartRead;
    var p, ask := PartAt(l, off), ToRead(l, off, want);
    var n := Min(ask, |flat| - off);
    var x := flat[off..off + n];
    ChunkFits(l, off, want, flat[..off], x);
    AppendPartOf(l, flat[..off], x, p);
    assert flat[..off] + x == flat[..off + n];
    PrefixPart(l, flat, off + n, p);
    if n < ask {
      assert flat[..off + n] == flat;
    }
    ReadBehind(PartFrom(l, flat, p), PartFrom(l, flat[..off], p), x, ask);
  }

  /** The fields of an open input stream, and the bytes the current Read has gathered. */
  datatype Reader = Reader(off: nat, cursors: seq<nat>, got: seq<Byte>)

  /** Each part's cursor is the number of earlier logical bytes stored in that part. */
  ghost predicate Consistent(l: Layout, flat: seq<Byte>, r: Reader)
    requires l.Ok()
  {
    r.off <= |flat| && |r.cursors| == l.n
    && forall p :: 0 <= p < l.n ==> r.cursors[p] == |PartFrom(l, flat[..r.off], p)|
  }

  /** One turn of the loop of `Read`. */
  function ReadTurn(l: Layout, files: seq<seq<Byte>>, want: nat, r: Reader): (r': Reader)
    requires l.Ok() && |files| == |r.cursors| == l.n && |r.got| <= want
    ensures |r'.cursors| == l.n && |r'.got| <= want
  {
    var p := PartAt(l, r.off);
    var bytes := PartRead(files[p], r.cursors[p], ToRead(l, r.off, want - |r.got|));
    Reader(r.off + |bytes|, r.cursors[p := r.cursors[p] + |bytes|], r.got + bytes)
  }

  /** The test for a corrupted part: a short read before the end of the file. */
  predicate Corrupted(l: Layout, size: nat, want: nat, before: Reader, after: Reader)
    requires l.Ok() && |before.got| <= want
  {
    after.off - before.off < ToRead(l, before.off, want - |before.got|) && after.off < size
  }

  /** A turn on a striped file delivers the next bytes, keeps the cursors consistent and finds nothing corrupted;
      it makes progress exactly when bytes are left and wanted. */
  lemma TurnDelivers(l: Layout, flat: seq<Byte>, want: nat, r: Reader)
    requires l.Ok() && Consistent(l, flat, r) && |r.got| < want
    ensures var r' := ReadTurn(l, Striped(l, flat), want, r);
            && Consistent(l, flat, r') && !Corrupted(l, |flat|, want, r, r')
            && r.off <= r'.off && r'.off - r.off <= want - |r.got|
            && r'.got == r.got + flat[r.off..r'.off]
            && (r'.off > r.off <==> r.off < |flat|)
  {
    hide PartFrom, PartAt, FitsChunk, PartRead;
    var ask := ToRead(l, r.off, want - |r.got|);
    PartReadGives(l, flat, r.off, want - |r.got|);
    var n := Min(ask, |flat| - r.off);
    var x := flat[r.off..r.off + n];
    assert flat[..r.off] + x == flat[..r.off + n];
    forall q | 0 <= q < l.n
      ensures |PartFrom(l, flat[..r.off + n], q)|
              == |PartFrom(l, flat[..r.off], q)| + if q == PartAt(l, r.off) then n else 0
    {
      AppendPartOf(l, flat[..r.off], x, q);
    }
  }

  /** The loop of `Read` ends within k turns, satisfied or at the corruption test. */
  ghost predicate EndsWithin(l: Layout, files: seq<seq<Byte>>, size: nat, want: nat, r: Reader, k: nat)
    requires l.Ok() && |files| == |r.cursors| == l.n && |r.got| <= want
    decreases k
  {
    |r.got| == want
    || (k > 0 && (Corrupted(l, size, want, r, ReadTurn(l, files, want, r))
                  || EndsWithin(l, files, size, want, ReadTurn(l, files, want, r), k - 1)))
  }

  lemma {:induction false} EndsInBounds(l: Layout, flat: seq<Byte>, want: nat, r: Reader)
    requires l.Ok() && Consistent(l, flat, r) && |r.got| <= want && r.off + (want - |r.got|) <= |flat|
    ensures EndsWithin(l, Striped(l, flat), |flat|, want, r, want - |r.got|)
    decreases want - |r.got|
  {
    hide ReadTurn, Corrupted, PartFrom;
    if |r.got| == want {
    } else {
      var r' := ReadTurn(l, Striped(l, flat), want, r);
      TurnDelivers(l, flat, want, r);
      EndsInBounds(l, flat, want, r');
      EndsLater(l, Striped(l, flat), |flat|, want, r', want - |r'.got|, want - |r.got| - 1);
    }
  }

  lemma {:induction false} EndsLater(l: Layout, files: seq<seq<Byte>>, size: nat, want: nat, r: Reader, j: nat, k: nat)
    requires l.Ok() && |files| == |r.cursors| == l.n && |r.got| <= want
    requires j <= k && EndsWithin(l, files, size, want, r, j)
    ensures EndsWithin(l, files, size, want, r, k)
    decreases k
  {
    hide ReadTurn, Corrupted;
    if |r.got| == want || Corrupted(l, size, want, r, ReadTurn(l, files, want, r)) {
    } else {
      EndsLater(l, files, size, want, ReadTurn(l, files, want, r), j - 1, k - 1);
    }
  }

  lemma {:induction false} NeverPastEnd(l: Layout, flat: seq<Byte>, want: nat, r: Reader, k: nat)
    requires l.Ok() && Consistent(l, flat, r) && |r.got| <= want && r.off + (want - |r.got|) > |flat|
    ensures !EndsWithin(l, Striped(l, flat), |flat|, want, r, k)
    decreases k
  {
    hide ReadTurn, Corrupted;
    TurnDelivers(l, flat, want, r);
    if k == 0 {
    } else {
      NeverPastEnd(l, flat, want, ReadTurn(l, Striped(l, flat), want, r), k - 1);
    }
  }

  /** `Read` terminates exactly when the bytes asked for lie inside the file: past the end a turn reads nothing,
      and the test that would leave the loop asks for an offset before the end. */
  lemma ReadEndsExactlyInBounds(l: Layout, flat: seq<Byte>, want: nat, r: Reader)
    requires l.Ok() && Consistent(l, flat, r) && r.got == []
    ensures (exists k :: EndsWithin(l, Striped(l, flat), |flat|, want, r, k)) <==> r.off + want <= |flat|
  {
    hide EndsWithin, PartFrom;
    if r.off + want <= |flat| {
      EndsInBounds(l, flat, want, r);
    } else {
      forall k: nat ensures !EndsWithin(l, Striped(l, flat), |flat|, want, r, k) {
        NeverPastEnd(l, flat, want, r, k);
      }
    }
  }

  class InputMultiDiskStream {
    const layout: Layout
    const files: seq<seq<Byte>>
    const size: nat
    var off: nat
    var cursors: seq<nat>

    function View(got: seq<Byte>): Reader
      reads this
    {
      Reader(off, cursors, got)
    }

    /** Open on the parts of flat. */
    ghost predicate Reading(flat: seq<Byte>)
      reads this
    {
      layout.Ok() && files == Striped(layout, flat) && size == |flat| && Consistent(layout, flat, View([]))
    }

    /** `Open`: the size is the sum of the part sizes. */
    constructor (layout: Layout, parts: seq<seq<Byte>>, ghost flat: seq<Byte>)
      requires layout.Ok() && parts == Striped(layout, flat)
      ensures Reading(flat) && off == 0 && this.layout == layout
    {
      this.layout, files := layout, parts;
      size := Sum(parts);
      off, cursors := 0, seq(|parts|, _ => 0);
      new;
      TotalSize(layout, flat);
      forall p | 0 <= p < layout.n ensures |PartFrom(layout, flat[..0], p)| == 0 {
        assert flat[..0] == [];
        EmptyOffset(layout, p);
      }
    }

    /** Exactly the offsets up to the size are accepted. */
    method Seek(offset: nat, ghost flat: seq<Byte>) returns (ok: bool)
      requires Reading(flat)
      modifies this
      ensures Reading(flat)
      ensures ok <==> offset <= size
      ensures off == if ok then offset else old(off)
    {
      if offset > size {
        return false;
      }
      hide PartFrom;
      off := offset;
      var blocks := off / layout.chunk;
      var i := 0;
      while i < layout.n
        invariant 0 <= i <= layout.n && |cursors| == layout.n && off == offset
        invariant forall p :: 0 <= p < i ==> cursors[p] == |PartFrom(layout, flat[..off], p)|
      {
        var seekOff := blocks / layout.n * layout.chunk;
        if i < blocks % layout.n {
          seekOff := seekOff + layout.chunk;
        } else if i == blocks % layout.n {
          seekOff := seekOff + off % layout.chunk;
        }
        assert seekOff == SeekOffset(layout, off, i);
        SeekOffsetIsLength(layout, flat[..off], i);
        cursors := cursors[i := seekOff];
        i := i + 1;
      }
      return true;
    }

    /** An in-bounds read terminates and returns the bytes of the flat file. */
    method Read(want: nat, ghost flat: seq<Byte>) returns (buf: seq<Byte>)
      requires Reading(flat) && off + want <= size
      modifies this
      ensures Reading(flat) && off == old(off) + want
      ensures buf == flat[old(off)..off]
    {
      hide PartFrom, PartAt, ToRead;
      buf := [];
      while |buf| < want
        invariant |buf| <= want && off == old(off) + |buf|
        invariant Reading(flat) && buf == flat[old(off)..off]
      {
        TurnDelivers(layout, flat, want, View(buf));
        var r := ReadTurn(layout, files, want, View(buf));
        var corrupted := Corrupted(layout, size, want, View(buf), r);
        off, cursors, buf := r.off, r.cursors, r.got;
        if corrupted {
          break;
        }
      }
    }
  }
}
