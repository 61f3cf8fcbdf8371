/**
 * The double-ended byte buffer (fma-common/binary_buffer.h).
 *
 * Memory is a heap of live blocks, each at its base address. Where the
 * allocator places a block, what the block holds at first, and whether there
 * is room for it at all is left open, so everything here holds of every
 * allocator.
 */
module BinaryBuffer {
  import opened Bytes
  import opened Integers
  import opened Sequences
  import opened Options

  const POINTER_SIZE: nat := SIZE_T
  const ADDRESS_SPACE: nat := Pow256(POINTER_SIZE)
  const RESERVED_HEADER_SPACE: nat := 64

  function Max(a: nat, b: nat): nat {
    if a < b then b else a
  }

  function PointerBytes(p: nat): (b: seq<Byte>)
    ensures |b| == POINTER_SIZE
  {
    LittleEndian(p, POINTER_SIZE)
  }

  lemma PointerReadsBack(p: nat)
    requires p < ADDRESS_SPACE
    ensures FromLittleEndian(PointerBytes(p)) == p
  {
    LittleEndianRoundTrip(p, POINTER_SIZE);
    DivUnique(p, ADDRESS_SPACE, 0, p);
  }

  type Blocks = map<nat, seq<Byte>>

  predicate InSpace(p: nat, n: nat) {
    0 < p < ADDRESS_SPACE && p + n <= ADDRESS_SPACE
  }

  predicate Apart(p: nat, n: nat, q: nat, m: nat) {
    p + n <= q || q + m <= p
  }

  /** A place where a block of n bytes touches no live block. */
  predicate Vacant(blocks: Blocks, p: nat, n: nat) {
    InSpace(p, n) && p !in blocks && forall b <- blocks :: Apart(b, |blocks[b]|, p, n)
  }

  /** Every live block lies in the address space and apart from the others. */
  predicate WellPlaced(blocks: Blocks) {
    && (forall b <- blocks :: InSpace(b, |blocks[b]|))
    && (forall b <- blocks, c <- blocks :: b != c ==> Apart(b, |blocks[b]|, c, |blocks[c]|))
  }

  lemma PatchedSlices(block: seq<Byte>, off: nat, bytes: seq<Byte>, from: nat, to: nat)
    requires from <= off && off + |bytes| <= to <= |block|
    ensures Patched(block, off, bytes)[from..to] == block[from..off] + bytes + block[off + |bytes|..to]
  {
  }

  lemma HeadRenewed(block: seq<Byte>, from: nat, to: nat, head: seq<Byte>, renewed: seq<Byte>, content: seq<Byte>)
    requires from <= to <= |block| && block[from..to] == head + content && |head| == |renewed|
    ensures Patched(block, from, renewed)[from..to] == renewed + content
  {
    hide Patched;
    PatchedSlices(block, from, renewed, from, to);
    Slice(block, from, to, |head|, to - from);
    assert (head + content)[|head|..to - from] == content;
    assert block[from..from] + renewed + content == renewed + content;
  }

  lemma FrontFilled(block: seq<Byte>, from: nat, to: nat, data: seq<Byte>)
    requires |data| <= from <= to <= |block|
    ensures Patched(block, from - |data|, data)[from - |data|..to] == data + block[from..to]
  {
    hide Patched;
    PatchedSlices(block, from - |data|, data, from - |data|, to);
    assert block[from - |data|..from - |data|] + data == data;
  }

  lemma BackFilled(block: seq<Byte>, from: nat, to: nat, data: seq<Byte>)
    requires from <= to && to + |data| <= |block|
    ensures Patched(block, to, data)[from..to + |data|] == block[from..to] + data
  {
    hide Patched;
    PatchedSlices(block, to, data, from, to + |data|);
    assert block[from..to] + data + block[to + |data|..to + |data|] == block[from..to] + data;
  }

  lemma PatchedTwice(block: seq<Byte>, a: seq<Byte>, c: seq<Byte>)
    requires |block| == |a| + |c|
    ensures Patched(Patched(block, 0, a), |a|, c) == a + c
  {
  }

  lemma PlacedApart(blocks: Blocks, p: nat, block: seq<Byte>)
    requires WellPlaced(blocks) && Vacant(blocks, p, |block|)
    ensures WellPlaced(blocks[p := block])
  {
  }

  lemma StillApart(blocks: Blocks, p: nat)
    requires WellPlaced(blocks)
    ensures WellPlaced(blocks - {p})
  {
    var rest := blocks - {p};
    assert forall b <- rest :: b in blocks && rest[b] == blocks[b];
  }

  /** block with bytes copied over it from offset off on. */
  function Patched(block: seq<Byte>, off: nat, bytes: seq<Byte>): (r: seq<Byte>)
    requires off + |bytes| <= |block|
    ensures |r| == |block|
  {
    block[..off] + bytes + block[off + |bytes|..]
  }

  /** Only block `was` is replaced by block `now`; the others are as they were. */
  predicate Rehoused(before: Blocks, after: Blocks, was: nat, now: nat) {
    after - {was, now} == before - {was, now} && (now != was ==> now !in before && was !in after)
  }

  lemma RehousedTwice(a: Blocks, b: Blocks, c: Blocks, x: nat, y: nat, z: nat)
    requires Rehoused(a, b, x, y) && Rehoused(b, c, y, z)
    ensures Rehoused(a, c, x, z)
  {
    forall k | k !in {x, z} ensures k in a <==> k in c
      ensures k in a ==> a[k] == c[k]
    {
      if k != y {
        assert k in a - {x, y} <==> k in b - {x, y};
        assert k in b - {y, z} <==> k in c - {y, z};
        assert k in a ==> a[k] == (a - {x, y})[k] == (b - {x, y})[k] == b[k];
        assert k in b ==> b[k] == (b - {y, z})[k] == (c - {y, z})[k] == c[k];
      }
    }
    assert z != y && z != x ==> (z in a - {x, y} <==> z in b - {x, y});
    assert x != y && x != z ==> (x in b - {y, z} <==> x in c - {y, z});
  }

  lemma RehousedSame(a: Blocks, x: nat)
    ensures Rehoused(a, a, x, x)
  {
  }

  lemma RehousedStore(a: Blocks, b: Blocks, x: nat, y: nat, block: seq<Byte>)
    requires Rehoused(a, b, x, y) && y in b
    ensures Rehoused(a, b[y := block], x, y)
  {
    assert b[y := block] - {x, y} == b - {x, y};
  }

  lemma NotVacant(blocks: Blocks, p: nat, n: nat)
    requires Vacant(blocks, p, n)
    ensures p !in blocks
  {
  }

  lemma NullIsNoBlock(a: Blocks)
    requires WellPlaced(a)
    ensures 0 !in a
  {
  }

  /** A new block is filled and the old one freed: the old one is rehoused. */
  lemma RehousedMove(a: Blocks, b: Blocks, x: nat, y: nat, block: seq<Byte>)
    requires x in a && 0 !in a && y != 0 && Rehoused(a, b, 0, y) && y in b
    ensures x != y && Rehoused(a, b[y := block] - {x}, x, y)
  {
    var c := b[y := block] - {x};
    assert y !in a;
    forall k | k !in {x, y} ensures k in a <==> k in c
      ensures k in a ==> a[k] == c[k]
    {
      assert k in a - {0, y} <==> k in b - {0, y};
      assert k in a && k != 0 ==> a[k] == (a - {0, y})[k] == (b - {0, y})[k] == b[k];
    }
    assert a - {x, y} == c - {x, y};
  }

  class Heap {
    var blocks: Blocks

    constructor ()
      ensures WellPlaced(blocks) && blocks == map[]
    {
      blocks := map[];
    }

    /** malloc: 0 when there is no room. */
    method Malloc(n: nat) returns (p: nat)
      requires WellPlaced(blocks)
      modifies this
      ensures WellPlaced(blocks)
      ensures p == 0 ==> blocks == old(blocks)
      ensures p != 0 ==> Vacant(old(blocks), p, n)
      ensures p != 0 ==> p in blocks && |blocks[p]| == n
      ensures forall b <- old(blocks) :: b in blocks && blocks[b] == old(blocks)[b]
      ensures Rehoused(old(blocks), blocks, 0, p)
    {
      p :| 0 <= p < ADDRESS_SPACE && (p == 0 || Vacant(blocks, p, n));
      if p != 0 {
        var unset := new Byte[n];
        PlacedApart(blocks, p, unset[..]);
        blocks := blocks[p := unset[..]];
      }
    }

    /** free: nothing happens to the null pointer. */
    method Free(p: nat)
      requires WellPlaced(blocks) && (p != 0 ==> p in blocks)
      modifies this
      ensures WellPlaced(blocks)
      ensures blocks == if p == 0 then old(blocks) else old(blocks) - {p}
    {
      if p != 0 {
        StillApart(blocks, p);
        blocks := blocks - {p};
      }
    }

    /** realloc: the block may stay, grow or shrink in place, or move. */
    method Realloc(p: nat, n: nat) returns (q: nat)
      requires WellPlaced(blocks) && p in blocks
      modifies this
      ensures WellPlaced(blocks)
      ensures q == 0 ==> blocks == old(blocks)
      ensures q != 0 ==> Vacant(old(blocks) - {p}, q, n)
      ensures q != 0 ==> q in blocks && |blocks[q]| == n && Rehoused(old(blocks), blocks, p, q)
      ensures q != 0 ==> forall i :: 0 <= i < n && i < |old(blocks)[p]| ==> blocks[q][i] == old(blocks)[p][i]
    {
      var rest, was := blocks - {p}, blocks[p];
      q :| 0 <= q < ADDRESS_SPACE && (q == 0 || Vacant(rest, q, n));
      if q != 0 {
        var more := new Byte[n];
        var block := if n <= |was| then was[..n] else was + more[|was|..];
        StillApart(blocks, p);
        PlacedApart(rest, q, block);
        blocks := rest[q := block];
      }
    }

    /** memcpy into a block. */
    method Store(p: nat, off: nat, bytes: seq<Byte>)
      requires WellPlaced(blocks) && p in blocks && off + |bytes| <= |blocks[p]|
      modifies this
      ensures WellPlaced(blocks)
      ensures blocks == old(blocks)[p := Patched(old(blocks)[p], off, bytes)]
    {
      blocks := blocks[p := Patched(blocks[p], off, bytes)];
    }

    /** A block filled with its own address and some content. */
    method FillCopy(p: nat, content: seq<Byte>)
      requires WellPlaced(blocks) && p in blocks && |blocks[p]| == POINTER_SIZE + |content|
      modifies this
      ensures WellPlaced(blocks) && blocks == old(blocks)[p := PointerBytes(p) + content]
    {
      hide WellPlaced, Patched, PointerBytes;
      PatchedTwice(blocks[p], PointerBytes(p), content);
      Store(p, 0, PointerBytes(p));
      Store(p, POINTER_SIZE, content);
    }

    /** A new block that holds its own address and some content. */
    method Duplicate(content: seq<Byte>) returns (p: nat)
      requires WellPlaced(blocks)
      modifies this
      ensures WellPlaced(blocks)
      ensures p == 0 ==> blocks == old(blocks)
      ensures p != 0 ==> p in blocks && blocks[p] == PointerBytes(p) + content
      ensures forall b <- old(blocks) :: b in blocks && blocks[b] == old(blocks)[b]
      ensures Rehoused(old(blocks), blocks, 0, p)
    {
      hide PointerBytes, WellPlaced, Vacant, Rehoused;
      p := Malloc(|content| + POINTER_SIZE);
      if p != 0 {
        NotVacant(old(blocks), p, |content| + POINTER_SIZE);
        RehousedStore(old(blocks), blocks, 0, p, PointerBytes(p) + content);
        FillCopy(p, content);
      }
    }

    /** The n bytes at an address, found without knowing which block holds them. */
    method Load(a: nat, n: nat, ghost b: nat) returns (bytes: seq<Byte>)
      requires WellPlaced(blocks) && n > 0
      requires b in blocks && b <= a && a + n <= b + |blocks[b]|
      ensures bytes == blocks[b][a - b..a - b + n]
    {
      var c :| c in blocks && c <= a && a + n <= c + |blocks[c]|;
      assert c != b ==> Apart(b, |blocks[b]|, c, |blocks[c]|);
      bytes := blocks[c][a - c..a - c + n];
    }
  }

  /** How a call ends: every outcome but Done is a fatal assertion of the library. */
  datatype Outcome = Done | IsConst | NoMemory | BeyondEnd

  /** p points at content inside live block b, and the base of b is stored just before p. */
  predicate Detached(blocks: Blocks, p: nat, b: nat, content: seq<Byte>) {
    && b in blocks && b + POINTER_SIZE <= p && p + |content| <= b + |blocks[b]|
    && blocks[b][p - b - POINTER_SIZE..p - b] == PointerBytes(b)
    && blocks[b][p - b..p - b + |content|] == content
  }

  /** A pointer to the base of its block has no room before it for an address. */
  lemma NotDetached(blocks: Blocks, b: nat, content: seq<Byte>)
    ensures !Detached(blocks, b, b, content)
  {
  }

  lemma SpelledDetached(blocks: Blocks, b: nat, from: nat, to: nat, content: seq<Byte>)
    requires b in blocks && from <= to <= |blocks[b]|
    requires blocks[b][from..to] == PointerBytes(b) + content
    ensures Detached(blocks, b + from + POINTER_SIZE, b, content)
  {
    hide PointerBytes;
    assert blocks[b][from..to][..POINTER_SIZE] == PointerBytes(b);
    assert blocks[b][from..to][POINTER_SIZE..] == content;
  }

  datatype Op = Put(data: seq<Byte>) | PutHead(data: seq<Byte>) | Get(size: nat)

  /** One step of the simple form: the content after it, and what it returned. */
  function Apply(content: seq<Byte>, op: Op): Option<(seq<Byte>, seq<seq<Byte>>)> {
    match op
    case Put(d) => Some((content + d, []))
    case PutHead(d) => Some((d + content, []))
    case Get(n) => if n <= |content| then Some((content[n..], [content[..n]])) else None
  }

  /**
   * The simple form of a buffer: a byte sequence added to at both ends and
   * taken from the front. A run gives the final content and what each Get
   * took, or nothing when some Get asks for more than there is.
   */
  function Deque(content: seq<Byte>, ops: seq<Op>): Option<(seq<Byte>, seq<seq<Byte>>)>
    decreases |ops|
  {
    if ops == [] then Some((content, [])) else
      var before := Deque(content, ops[..|ops| - 1]);
      if before.None? then None else
        var after := Apply(before.value.0, ops[|ops| - 1]);
        if after.None? then None else Some((after.value.0, before.value.1 + after.value.1))
  }

  /** Everything a run appends, in order. */
  function Appended(ops: seq<Op>): seq<Byte> {
    if ops == [] then [] else
      var last := ops[|ops| - 1];
      Appended(ops[..|ops| - 1]) + (if last.Put? then last.data else [])
  }

  lemma JoinedOneMore(parts: seq<seq<Byte>>, part: seq<Byte>)
    ensures Flatten(parts + [part]) == Flatten(parts) + part
  {
    assert (parts + [part])[..|parts|] == parts;
  }

  lemma StepKeepsOrder(s: seq<Byte>, got: seq<seq<Byte>>, op: Op)
    requires !op.PutHead? && Apply(s, op).Some?
    ensures var (t, more) := Apply(s, op).value;
      Flatten(got + more) + t == Flatten(got) + s + (if op.Put? then op.data else [])
  {
    match op {
      case Put(d) => assert got + [] == got; assert Flatten(got) + (s + d) == Flatten(got) + s + d;
      case Get(n) =>
        JoinedOneMore(got, s[..n]);
        assert Flatten(got) + s == Flatten(got) + s[..n] + s[n..];
    }
  }

  /**
   * Without head writes the buffer is a queue: what the reads returned and what
   * is left spell the first content followed by everything written.
   */
  lemma {:induction false} QueueKeepsOrder(content: seq<Byte>, ops: seq<Op>)
    requires forall op <- ops :: !op.PutHead?
    requires Deque(content, ops).Some?
    ensures var (s, got) := Deque(content, ops).value; Flatten(got) + s == content + Appended(ops)
    decreases |ops|
  {
    hide Apply;
    if ops == [] {
    } else {
      var before, last := ops[..|ops| - 1], ops[|ops| - 1];
      assert last in ops;
      QueueKeepsOrder(content, before);
      var (s, got) := Deque(content, before).value;
      StepKeepsOrder(s, got, last);
      assert Appended(ops) == Appended(before) + (if last.Put? then last.data else []);
      assert content + Appended(before) + (if last.Put? then last.data else []) == content + Appended(ops);
    }
  }

  class BinaryBuffer {
    const heap: Heap
    var buf: nat
    /** The block a constant buffer points into, not always to its base. */
    ghost var home: nat
    var constBuf: bool
    var pend: nat
    var gpos: nat
    var ppos: nat

    ghost predicate Valid()
      reads this, heap
    {
      && WellPlaced(heap.blocks)
      && gpos <= ppos <= pend
      && (buf == 0 ==> pend == 0)
      && (buf != 0 && !constBuf ==> buf in heap.blocks && pend <= |heap.blocks[buf]|)
      && (buf != 0 && constBuf ==> home in heap.blocks && home <= buf && buf - home + pend <= |heap.blocks[home]|)
    }

    /** The bytes that can still be read, next one first. */
    ghost function Content(): (s: seq<Byte>)
      reads this, heap
      requires Valid()
      ensures |s| == ppos - gpos
    {
      if buf == 0 then []
      else if constBuf then heap.blocks[home][buf - home + gpos..buf - home + ppos]
      else heap.blocks[buf][gpos..ppos]
    }

    /** The bytes from the front, read through the pointer. */
    method Peek(size: nat) returns (data: seq<Byte>)
      requires Valid() && size <= ppos - gpos
      ensures data == Content()[..size]
    {
      hide WellPlaced;
      data := [];
      if size > 0 {
        if constBuf {
          data := heap.Load(buf + gpos, size, home);
          Slice(heap.blocks[home], buf - home + gpos, buf - home + ppos, 0, size);
        } else {
          data := heap.Load(buf + gpos, size, buf);
          Slice(heap.blocks[buf], gpos, ppos, 0, size);
        }
      }
    }

    /** The block the buffer has to free: none while it only borrows. */
    function Owned(): nat
      reads this
    {
      if constBuf then 0 else buf
    }

    constructor Empty(h: Heap)
      requires WellPlaced(h.blocks)
      ensures heap == h && Valid() && Content() == [] && !constBuf && buf == 0
    {
      heap, buf, constBuf, pend, gpos, ppos := h, 0, false, 0, 0, 0;
    }

    /** p points anywhere into block b. */
    constructor Borrow(h: Heap, p: nat, size: nat, ghost b: nat)
      requires WellPlaced(h.blocks)
      requires if p == 0 then size == 0 else b in h.blocks && b <= p && p + size <= b + |h.blocks[b]|
      ensures heap == h && Valid() && constBuf && buf == p && home == b
      ensures Content() == if p == 0 then [] else h.blocks[b][p - b..p - b + size]
    {
      heap, buf, home, constBuf, pend, gpos, ppos := h, p, b, true, size, 0, size;
    }

    /** The source does not look at malloc's answer here; with a null one the buffer is not usable. */
    constructor Sized(h: Heap, size: nat)
      requires WellPlaced(h.blocks)
      modifies h
      ensures heap == h && !constBuf && (buf != 0 ==> Valid() && Content() == [] && pend == size)
      ensures buf == 0 ==> h.blocks == old(h.blocks)
      ensures buf != 0 ==> Rehoused(old(h.blocks), h.blocks, 0, buf)
    {
      heap, constBuf, pend, gpos, ppos := h, false, size, 0, 0;
      new;
      var p := h.Malloc(size);
      buf := p;
    }

    method InitOstream() returns (out: Outcome)
      requires Valid() && buf == 0
      modifies this, heap
      ensures Valid() && Content() == []
      ensures out == Done || out == NoMemory
      ensures out == NoMemory ==> unchanged(this) && heap.blocks == old(heap.blocks)
      ensures out == Done ==> buf != 0 && !constBuf && Rehoused(old(heap.blocks), heap.blocks, 0, buf)
      ensures out == Done ==> pend == 2 * RESERVED_HEADER_SPACE && gpos == ppos == RESERVED_HEADER_SPACE
    {
      var p := heap.Malloc(RESERVED_HEADER_SPACE * 2);
      if p == 0 {
        return NoMemory;
      }
      buf, constBuf := p, false;
      pend, gpos, ppos := RESERVED_HEADER_SPACE * 2, RESERVED_HEADER_SPACE, RESERVED_HEADER_SPACE;
      return Done;
    }

    /** The reallocation inside Write. */
    method Grow(newSize: nat) returns (out: Outcome)
      requires Valid() && buf != 0 && !constBuf && ppos <= newSize
      modifies this`buf, this`pend, heap
      ensures Valid() && buf != 0 && Content() == old(Content())
      ensures out == Done || out == NoMemory
      ensures out == NoMemory ==> unchanged(this) && heap.blocks == old(heap.blocks)
      ensures out == Done ==> pend == newSize
      ensures Rehoused(old(heap.blocks), heap.blocks, old(buf), buf)
    {
      hide WellPlaced, Rehoused, Vacant;
      RehousedSame(heap.blocks, buf);
      var p := heap.Realloc(buf, newSize);
      if p == 0 {
        return NoMemory;
      }
      buf, pend := p, newSize;
      return Done;
    }

    /** Appends at the back. */
    method Write(data: seq<Byte>) returns (out: Outcome)
      requires Valid()
      modifies this, heap
      ensures Valid()
      ensures out == IsConst <==> old(constBuf)
      ensures out == IsConst ==> unchanged(this) && heap.blocks == old(heap.blocks)
      ensures out == Done || out == IsConst || out == NoMemory
      ensures out == NoMemory ==> old(buf == 0 || ppos + |data| > pend)
      ensures out == Done ==> old(buf != 0 && ppos + |data| > pend) ==> pend >= 2 * old(ppos)
      ensures Content() == if out == Done then old(Content()) + data else old(Content())
      ensures out == Done ==> !constBuf && buf != 0
      ensures Rehoused(old(heap.blocks), heap.blocks, old(buf), buf)
    {
      hide WellPlaced, Rehoused, Patched;
      ghost var before, was := heap.blocks, buf;
      RehousedSame(before, was);
      if constBuf {
        return IsConst;
      }
      if buf == 0 {
        out := InitOstream();
        if out != Done {
          return;
        }
      }
      ghost var mid, at, kept := heap.blocks, buf, Content();
      RehousedSame(mid, at);
      var newSize := |data| + ppos;
      if newSize > pend {
        newSize := Max(newSize, ppos * 2);
        out := Grow(newSize);
        if out != Done {
          RehousedTwice(before, mid, heap.blocks, was, at, buf);
          return;
        }
      }
      RehousedTwice(before, mid, heap.blocks, was, at, buf);
      RehousedStore(before, heap.blocks, was, buf, Patched(heap.blocks[buf], ppos, data));
      BackFilled(heap.blocks[buf], gpos, ppos, data);
      heap.Store(buf, ppos, data);
      ppos := ppos + |data|;
      assert Content() == kept + data;
      return Done;
    }

    /** Takes size bytes off the front. */
    method Read(size: nat) returns (out: Outcome, data: seq<Byte>)
      requires Valid()
      modifies this`gpos
      ensures Valid()
      ensures out == (if size <= |old(Content())| then Done else BeyondEnd)
      ensures |data| == if out == Done then size else 0
      ensures data + Content() == old(Content())
    {
      hide WellPlaced;
      if ppos < gpos + size {
        return BeyondEnd, [];
      }
      hide Valid, Content;
      data := Peek(size);
      Skip(size);
      return Done, data;
    }

    method Skip(size: nat)
      requires Valid() && size <= ppos - gpos
      modifies this`gpos
      ensures Valid() && Content() == old(Content())[size..]
    {
      hide WellPlaced;
      if buf != 0 && constBuf {
        Slice(heap.blocks[home], buf - home + gpos, buf - home + ppos, size, ppos - gpos);
      } else if buf != 0 {
        Slice(heap.blocks[buf], gpos, ppos, size, ppos - gpos);
      }
      ghost var was := Content();
      assert was[size..] == was[size..ppos - gpos];
      gpos := gpos + size;
    }

    /** The reallocation inside WriteHead: the content moves to the end of a new block. */
    method MakeRoom(size: nat) returns (out: Outcome)
      requires Valid() && buf != 0 && !constBuf && gpos < size
      modifies this, heap
      ensures Valid() && buf != 0 && Content() == old(Content())
      ensures out == Done || out == NoMemory
      ensures out == NoMemory ==> unchanged(this) && heap.blocks == old(heap.blocks)
      ensures out == Done ==> constBuf == old(constBuf) && buf != old(buf)
      ensures out == Done ==> gpos >= size && ppos == pend == Max(size + old(ppos), old(ppos) + RESERVED_HEADER_SPACE)
      ensures Rehoused(old(heap.blocks), heap.blocks, old(buf), buf)
    {
      hide WellPlaced, Rehoused, Vacant, Patched;
      ghost var before := heap.blocks;
      RehousedSame(before, buf);
      NullIsNoBlock(before);
      var newSize := Max(size + ppos, ppos + RESERVED_HEADER_SPACE);
      var p := heap.Malloc(newSize);
      if p == 0 {
        return NoMemory;
      }
      var content, newGpos := heap.blocks[buf][gpos..ppos], newSize - (ppos - gpos);
      RehousedMove(before, heap.blocks, buf, p, Patched(heap.blocks[p], newGpos, content));
      PatchedSlices(heap.blocks[p], newGpos, content, newGpos, newSize);
      heap.Store(p, newGpos, content);
      heap.Free(buf);
      buf := p;
      gpos := newGpos;
      ppos, pend := newSize, newSize;
      return Done;
    }

    /** The copy at the end of WriteHead. */
    method FillFront(data: seq<Byte>)
      requires Valid() && buf != 0 && !constBuf && |data| <= gpos
      modifies this`gpos, heap
      ensures Valid() && Content() == data + old(Content())
      ensures Rehoused(old(heap.blocks), heap.blocks, buf, buf)
    {
      hide WellPlaced, Rehoused, Patched;
      ghost var before, kept := heap.blocks, Content();
      RehousedSame(before, buf);
      RehousedStore(before, before, buf, buf, Patched(before[buf], gpos - |data|, data));
      FrontFilled(before[buf], gpos, ppos, data);
      gpos := gpos - |data|;
      heap.Store(buf, gpos, data);
    }

    /** Puts bytes before the front. */
    method WriteHead(data: seq<Byte>) returns (out: Outcome)
      requires Valid()
      modifies this, heap
      ensures Valid()
      ensures out == IsConst <==> old(constBuf)
      ensures out == IsConst ==> unchanged(this) && heap.blocks == old(heap.blocks)
      ensures out == Done || out == IsConst || out == NoMemory
      ensures out == NoMemory ==> old(buf == 0 || gpos < |data|)
      ensures Content() == if out == Done then data + old(Content()) else old(Content())
      ensures out == Done ==> !constBuf && buf != 0
      ensures out == Done ==> (buf == old(buf) <==> old(buf != 0 && |data| <= gpos))
      ensures Rehoused(old(heap.blocks), heap.blocks, old(buf), buf)
    {
      hide WellPlaced, Rehoused, Patched;
      ghost var before, was := heap.blocks, buf;
      RehousedSame(before, was);
      if constBuf {
        return IsConst;
      }
      out := Done;
      if buf == 0 {
        out := InitOstream();
        if out != Done {
          return;
        }
      }
      ghost var mid, at := heap.blocks, buf;
      RehousedSame(mid, at);
      if gpos < |data| {
        out := MakeRoom(|data|);
      }
      RehousedTwice(before, mid, heap.blocks, was, at, buf);
      if out == NoMemory {
        return;
      }
      mid, at := heap.blocks, buf;
      FillFront(data);
      RehousedTwice(before, mid, heap.blocks, was, at, buf);
      return Done;
    }

    /**
     * Points the buffer at a block, freeing what it owned. With constant set
     * the block b stays the caller's, and p may point anywhere into it; without,
     * p is its base and it becomes the buffer's to free.
     */
    method SetBuf(p: nat, size: nat, constant: bool, ghost b: nat)
      requires Valid() && (!constant ==> b == p)
      requires if p == 0 then size == 0 else b in heap.blocks && b <= p && p + size <= b + |heap.blocks[b]|
      requires p != 0 ==> b != Owned()
      modifies this, heap
      ensures Valid() && buf == p && constBuf == constant && |Content()| == size
      ensures p != 0 ==> Content() == old(heap.blocks[b][p - b..p - b + size])
      ensures heap.blocks == if old(Owned()) == 0 then old(heap.blocks) else old(heap.blocks) - {old(Owned())}
    {
      hide WellPlaced;
      if !constBuf {
        heap.Free(buf);
      }
      constBuf, buf, home, ppos, gpos, pend := constant, p, b, size, 0, size;
    }

    /** The copy DetachBuf makes of a constant buffer. */
    method DetachCopy() returns (p: nat)
      requires Valid() && constBuf
      modifies heap
      ensures Valid() && Content() == old(Content())
      ensures p == 0 ==> heap.blocks == old(heap.blocks)
      ensures p != 0 ==> Rehoused(old(heap.blocks), heap.blocks, 0, p)
      ensures p != 0 ==> p in heap.blocks && heap.blocks[p] == PointerBytes(p) + Content()
    {
      hide PointerBytes, WellPlaced, Rehoused;
      var content := Peek(ppos - gpos);
      assert content == Content();
      p := heap.Duplicate(content);
    }

    /** Puts the address of the current block in place of the one in the header. */
    method RenewHead(ghost head: seq<Byte>, ghost content: seq<Byte>)
      requires Valid() && buf != 0 && !constBuf && |head| == POINTER_SIZE && Content() == head + content
      modifies heap
      ensures Valid() && Content() == PointerBytes(buf) + content
      ensures Rehoused(old(heap.blocks), heap.blocks, buf, buf)
    {
      hide WellPlaced, Rehoused, Patched, PointerBytes;
      ghost var before := heap.blocks;
      RehousedSame(before, buf);
      RehousedStore(before, before, buf, buf, Patched(before[buf], gpos, PointerBytes(buf)));
      HeadRenewed(before[buf], gpos, ppos, head, PointerBytes(buf), content);
      heap.Store(buf, gpos, PointerBytes(buf));
    }

    /** The part of DetachBuf for a buffer that owns its block: a header with the address of the block. */
    method DetachOwn() returns (out: Outcome, p: nat)
      requires Valid() && !constBuf
      modifies this, heap
      ensures Valid() && (out == Done || out == NoMemory)
      ensures out == NoMemory ==> Content() == old(Content())
      ensures out == Done ==> buf != 0 && buf in heap.blocks && Detached(heap.blocks, p, buf, old(Content()))
      ensures Rehoused(old(heap.blocks), heap.blocks, old(buf), buf)
    {
      hide WellPlaced, Rehoused, Vacant, Patched, PointerBytes, Detached;
      p := 0;
      ghost var content := Content();
      var origBuf := buf;
      out := WriteHead(PointerBytes(origBuf));
      if out != Done {
        return;
      }
      if origBuf != buf {
        ghost var mid := heap.blocks;
        RenewHead(PointerBytes(origBuf), content);
        RehousedTwice(old(heap.blocks), mid, heap.blocks, origBuf, buf, buf);
      }
      p := buf + gpos + POINTER_SIZE;
      SpelledDetached(heap.blocks, buf, gpos, ppos, content);
    }

    /**
     * Hands the content over as a pointer and a size; the block that holds it
     * is named by the ghost result b. A buffer that owned its block hands out a
     * pointer to the content, with the address of the block stored just before
     * it. A constant buffer does not: its pointer is the address of the copy
     * itself, which starts with the stored address and not with the content.
     */
    method DetachBuf() returns (out: Outcome, p: nat, size: nat, ghost b: nat)
      requires Valid()
      modifies this, heap
      ensures Valid()
      ensures out == Done || out == NoMemory
      ensures out == NoMemory ==> Content() == old(Content())
      ensures out == Done ==> size == |old(Content())|
      ensures out == Done ==> buf == pend == gpos == ppos == 0 && !constBuf
      ensures out == Done ==> b in heap.blocks && Rehoused(old(heap.blocks), heap.blocks, old(Owned()), b)
      ensures out == Done ==> (Detached(heap.blocks, p, b, old(Content())) <==> !old(constBuf))
      ensures out == Done && old(constBuf) ==> p == b && heap.blocks[b] == PointerBytes(b) + old(Content())
    {
      hide WellPlaced, Rehoused, Vacant, Patched, PointerBytes, Detached;
      p, b, size := 0, 0, ppos - gpos;
      ghost var content := Content();
      if constBuf {
        p := DetachCopy();
        if p == 0 {
          return NoMemory, 0, 0, 0;
        }
        b := p;
        NotDetached(heap.blocks, b, content);
      } else {
        out, p := DetachOwn();
        if out != Done {
          return;
        }
        b := buf;
      }
      buf, constBuf, ppos, gpos, pend := 0, false, 0, 0, 0;
      out := Done;
    }

    method PerformOne(op: Op) returns (out: Outcome, got: seq<seq<Byte>>)
      requires Valid()
      modifies this, heap
      ensures Valid()
      ensures out == Done ==> Apply(old(Content()), op) == Some((Content(), got))
      ensures out != Done ==> Content() == old(Content())
      ensures out == BeyondEnd <==> Apply(old(Content()), op).None?
      ensures out == IsConst ==> !op.Get?
      ensures Rehoused(old(heap.blocks), heap.blocks, old(buf), buf)
    {
      hide WellPlaced, Rehoused, Valid, Content;
      got := [];
      match op
      case Put(d) => out := Write(d);
      case PutHead(d) => out := WriteHead(d);
      case Get(n) =>
        RehousedSame(heap.blocks, buf);
        var data;
        ghost var was := Content();
        out, data := Read(n);
        if out == Done {
          assert was[..n] == data && was[n..] == Content();
          got := [data];
        }
    }

    /** Performs ops one after another until one fails. */
    method Perform(ops: seq<Op>) returns (out: Outcome, done: nat, got: seq<seq<Byte>>)
      requires Valid()
      modifies this, heap
      ensures Valid() && done <= |ops| && (out == Done <==> done == |ops|)
      ensures Deque(old(Content()), ops[..done]) == Some((Content(), got))
      ensures out == BeyondEnd <==> done < |ops| && Apply(Content(), ops[done]).None?
      ensures out == IsConst ==> !ops[done].Get?
      ensures Rehoused(old(heap.blocks), heap.blocks, old(buf), buf)
    {
      hide WellPlaced, Rehoused, Apply;
      ghost var before, was, first := heap.blocks, buf, Content();
      RehousedSame(before, was);
      out, done, got := Done, 0, [];
      while done < |ops|
        invariant Valid() && done <= |ops| && out == Done
        invariant Deque(first, ops[..done]) == Some((Content(), got))
        invariant Rehoused(before, heap.blocks, was, buf)
      {
        ghost var mid, at := heap.blocks, buf;
        var more;
        out, more := PerformOne(ops[done]);
        RehousedTwice(before, mid, heap.blocks, was, at, buf);
        if out != Done {
          return;
        }
        got := got + more;
        assert ops[..done + 1][..done] == ops[..done];
        done := done + 1;
      }
    }
  }

  /** Frees a detached block, found through the address stored before the pointer. */
  method FreeDetachedBuf(heap: Heap, p: nat, ghost b: nat, ghost content: seq<Byte>)
    requires WellPlaced(heap.blocks) && Detached(heap.blocks, p, b, content)
    modifies heap
    ensures WellPlaced(heap.blocks) && heap.blocks == old(heap.blocks) - {b}
  {
    var head := heap.Load(p - POINTER_SIZE, POINTER_SIZE, b);
    PointerReadsBack(b);
    heap.Free(FromLittleEndian(head));
  }
}
