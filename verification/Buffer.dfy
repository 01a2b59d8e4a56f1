/** Chunked buffers: a list of memory chunks that stands for one byte sequence. */
module Buffer {

  import opened Common

  // ---- parts and their concatenation ----

  ghost function Concat(ps: seq<seq<Byte>>): seq<Byte> {
    if ps == [] then [] else Concat(ps[..|ps|-1]) + ps[|ps|-1]
  }

  /** Where part `k` starts in the concatenation. */
  ghost function Start(ps: seq<seq<Byte>>, k: nat): nat
    requires k <= |ps|
  {
    |Concat(ps[..k])|
  }

  /** Part `k` is the stretch of the concatenation that starts at `Start(ps, k)`. */
  lemma {:induction false} PartAt(ps: seq<seq<Byte>>, k: nat)
    requires k < |ps|
    ensures Start(ps, k + 1) == Start(ps, k) + |ps[k]| <= |Concat(ps)|
    ensures Concat(ps)[Start(ps, k) .. Start(ps, k) + |ps[k]|] == ps[k]
  {
    var n := |ps| - 1;
    assert ps[..k+1][..k] == ps[..k] && ps[..k+1][k] == ps[k];
    if k < n {
      PartAt(ps[..n], k);
      assert ps[..n][..k] == ps[..k] && ps[..n][..k+1] == ps[..k+1];
    } else {
      assert ps[..k+1] == ps;
    }
  }

  /** Replacing a part by one of the same length replaces its stretch. */
  lemma {:induction false} PartUpdate(ps: seq<seq<Byte>>, k: nat, q: seq<Byte>)
    requires k < |ps| && |q| == |ps[k]|
    ensures Start(ps, k) + |q| <= |Concat(ps)|
    ensures Concat(ps[k := q]) == Concat(ps)[..Start(ps, k)] + q + Concat(ps)[Start(ps, k) + |q|..]
  {
    var n := |ps| - 1;
    PartAt(ps, k);
    if k < n {
      PartUpdate(ps[..n], k, q);
      assert ps[k := q][..n] == ps[..n][k := q];
      assert ps[..n][..k] == ps[..k];
    } else {
      assert ps[k := q][..n] == ps[..n];
    }
  }

  lemma {:induction false} StartMonotone(ps: seq<seq<Byte>>, j: nat, k: nat)
    requires j <= k <= |ps|
    ensures Start(ps, j) <= Start(ps, k)
  {
    if j < k {
      StartMonotone(ps, j, k - 1);
      PartAt(ps, k - 1);
    }
  }

  lemma ConcatAppend(ps: seq<seq<Byte>>, q: seq<Byte>)
    ensures Concat(ps + [q]) == Concat(ps) + q
  {
    assert (ps + [q])[..|ps|] == ps;
  }

  function Max(x: int, y: int): int { if x > y then x else y }

  /** `after` is `before` with `data` written at `off`; bytes in a gap behind the old end are arbitrary. */
  ghost predicate Spliced(before: seq<Byte>, off: nat, data: seq<Byte>, after: seq<Byte>) {
    && |after| == Max(|before|, off + |data|)
    && (forall i :: off <= i < off + |data| ==> after[i] == data[i - off])
    && (forall i :: 0 <= i < |before| && !(off <= i < off + |data|) ==> after[i] == before[i])
  }

  /** Without a gap the result is determined. */
  lemma SplicedIsSplice(before: seq<Byte>, off: nat, data: seq<Byte>, after: seq<Byte>)
    requires Spliced(before, off, data, after) && off <= |before|
    ensures after == before[..off] + data + before[Min(off + |data|, |before|)..]
  {
  }

  lemma SplicedTwice(a: seq<Byte>, off: nat, d1: seq<Byte>, b: seq<Byte>, d2: seq<Byte>, c: seq<Byte>)
    requires Spliced(a, off, d1, b) && Spliced(b, off + |d1|, d2, c)
    ensures Spliced(a, off, d1 + d2, c)
  {
  }

  /** Splicing into a stretch is splicing into the whole. */
  lemma StretchSpliced(flat: seq<Byte>, start: nat, p: seq<Byte>, at: nat, data: seq<Byte>, q: seq<Byte>)
    requires start + |p| <= |flat| && flat[start..start + |p|] == p
    requires at + |data| <= |p| && Spliced(p, at, data, q)
    ensures Spliced(flat, start + at, data, flat[..start] + q + flat[start + |p|..])
  {
    var after := flat[..start] + q + flat[start + |p|..];
    forall i | start <= i < start + |p| ensures after[i] == q[i - start] && flat[i] == p[i - start] {}
  }

  /** At most `n` bytes from `off`, clipped to the end. */
  function Cut(flat: seq<Byte>, off: nat, n: nat): seq<Byte> {
    if off <= |flat| then flat[off..Min(off + n, |flat|)] else []
  }

  // ---- comparison ----

  /** memcmp's sign: by the first byte that differs. */
  function Memcmp(a: seq<Byte>, b: seq<Byte>): (r: int)
    requires |a| == |b|
    ensures r == 0 <==> a == b
  {
    if a == [] then 0
    else if a[0] < b[0] then -1
    else if a[0] > b[0] then 1
    else
      assert a == [a[0]] + a[1..] && b == [b[0]] + b[1..];
      Memcmp(a[1..], b[1..])
  }

  lemma {:induction false} MemcmpFirst(a: seq<Byte>, b: seq<Byte>, i: nat)
    requires |a| == |b| && i < |a| && a[..i] == b[..i] && a[i] != b[i]
    ensures Memcmp(a, b) == if a[i] < b[i] then -1 else 1
  {
    if i > 0 {
      assert a[0] == a[..i][0] == b[..i][0] == b[0];
      assert a[1..][..i-1] == a[..i][1..] && b[1..][..i-1] == b[..i][1..];
      MemcmpFirst(a[1..], b[1..], i - 1);
    }
  }

  lemma {:induction false} MemcmpConcat(a1: seq<Byte>, b1: seq<Byte>, a2: seq<Byte>, b2: seq<Byte>)
    requires |a1| == |b1| && |a2| == |b2|
    ensures Memcmp(a1 + a2, b1 + b2) == if a1 == b1 then Memcmp(a2, b2) else Memcmp(a1, b1)
  {
    if a1 == [] {
      assert a1 + a2 == a2 && b1 + b2 == b2;
    } else {
      assert (a1 + a2)[1..] == a1[1..] + a2 && (b1 + b2)[1..] == b1[1..] + b2;
      MemcmpConcat(a1[1..], b1[1..], a2, b2);
    }
  }

  datatype Comparison = Invalid | Order(sign: int)

  /** The result of comparing `n` bytes at two offsets, as far as both buffers reach. */
  function CompareFlat(f1: seq<Byte>, off1: nat, f2: seq<Byte>, off2: nat, n: nat): Comparison {
    var m := Min(|Cut(f1, off1, n)|, |Cut(f2, off2, n)|);
    var r := Memcmp(Cut(f1, off1, m), Cut(f2, off2, m));
    if r != 0 then Order(r) else if m == n then Order(0) else Invalid
  }

  /** The result is 0 exactly when both stretches exist and are equal. */
  lemma CompareEqualMeans(f1: seq<Byte>, off1: nat, f2: seq<Byte>, off2: nat, n: nat)
    ensures CompareFlat(f1, off1, f2, off2, n) == Order(0) <==>
      n == 0 || (off1 + n <= |f1| && off2 + n <= |f2| && f1[off1..off1 + n] == f2[off2..off2 + n])
  {
    var m := Min(|Cut(f1, off1, n)|, |Cut(f2, off2, n)|);
    if n == 0 { assert Cut(f1, off1, 0) == [] == Cut(f2, off2, 0); }
  }

  /** Otherwise the first byte that differs decides, if both buffers reach that far. */
  lemma CompareDiffersMeans(f1: seq<Byte>, off1: nat, f2: seq<Byte>, off2: nat, n: nat, i: nat)
    requires i < n && off1 + i < |f1| && off2 + i < |f2| && f1[off1..off1 + i] == f2[off2..off2 + i]
    requires f1[off1 + i] != f2[off2 + i]
    ensures CompareFlat(f1, off1, f2, off2, n) == Order(if f1[off1 + i] < f2[off2 + i] then -1 else 1)
  {
    hide Memcmp;
    var m := Min(|Cut(f1, off1, n)|, |Cut(f2, off2, n)|);
    CutAt(f1, off1, m, i);
    CutAt(f2, off2, m, i);
    assert |Cut(f1, off1, m)| == m == |Cut(f2, off2, m)|;
    hide Cut;
    MemcmpFirst(Cut(f1, off1, m), Cut(f2, off2, m), i);
  }

  lemma CutAt(f: seq<Byte>, off: nat, m: nat, i: nat)
    requires i < m && off + i < |f|
    ensures i < |Cut(f, off, m)| && Cut(f, off, m)[i] == f[off + i] && Cut(f, off, m)[..i] == f[off..off + i]
  {
  }

  class ChunkedBuffer {
    var chunks: seq<array<Byte>>   // the list from head to tail
    var size: nat

    ghost predicate Valid()
      reads this, chunks
    {
      && size == |Flat()|
      && forall i, j :: 0 <= i < j < |chunks| ==> chunks[i] != chunks[j]
    }

    ghost function Parts(): seq<seq<Byte>>
      reads this, chunks
    {
      seq(|chunks|, i requires 0 <= i < |chunks| reads this, chunks => chunks[i][..])
    }

    /** The byte sequence the buffer stands for. */
    ghost function Flat(): seq<Byte>
      reads this, chunks
    {
      Concat(Parts())
    }

    constructor ()
      ensures Valid() && chunks == [] && Flat() == []
    {
      chunks, size := [], 0;
    }

    /** buffer_add_head_any */
    method AddHead(chunk: array<Byte>)
      requires Valid() && chunk !in chunks
      modifies this
      ensures Valid() && chunks == [chunk] + old(chunks)
      ensures Flat() == chunk[..] + old(Flat())
    {
      ghost var ps := Parts();
      size := size + chunk.Length;
      chunks := [chunk] + chunks;
      assert Parts() == [chunk[..]] + ps;
      ConcatPrepend(chunk[..], ps);
    }

    lemma {:induction false} ConcatPrepend(q: seq<Byte>, ps: seq<seq<Byte>>)
      ensures Concat([q] + ps) == q + Concat(ps)
    {
      if ps == [] {
        assert [q] + ps == [q] && [q][..0] == [];
      } else {
        ConcatPrepend(q, ps[..|ps|-1]);
        assert ([q] + ps)[..|ps|] == [q] + ps[..|ps|-1];
      }
    }

    /** buffer_add_tail_any */
    method AddTail(chunk: array<Byte>)
      requires Valid() && chunk !in chunks
      modifies this
      ensures Valid() && chunks == old(chunks) + [chunk]
      ensures Flat() == old(Flat()) + chunk[..]
    {
      ghost var ps := Parts();
      size := size + chunk.Length;
      chunks := chunks + [chunk];
      assert Parts() == ps + [chunk[..]];
      ConcatAppend(ps, chunk[..]);
    }

    static method FillChunk(c: array<Byte>, at: nat, data: seq<Byte>)
      requires at + |data| <= c.Length
      modifies c
      ensures Spliced(old(c[..]), at, data, c[..])
    {
      forall i | 0 <= i < |data| { c[at + i] := data[i]; }
    }

    /** Copies `data` into chunk `k` from position `at` on. */
    method Fill(k: nat, at: nat, data: seq<Byte>)
      requires Valid() && k < |chunks| && at + |data| <= chunks[k].Length
      modifies chunks[k]
      ensures Valid() && |Flat()| == |old(Flat())| && Parts() == old(Parts())[k := chunks[k][..]]
      ensures Start(old(Parts()), k) + chunks[k].Length <= |Flat()|
      ensures Spliced(old(Flat()), Start(old(Parts()), k) + at, data, Flat())
    {
      hide Concat, Start, Spliced;
      ghost var ps, flat := Parts(), Flat();
      var c := chunks[k];
      FillChunk(c, at, data);
      forall j | 0 <= j < |chunks| && j != k ensures chunks[j][..] == ps[j] { assert chunks[j] != c; }
      assert Parts() == ps[k := c[..]];
      PartUpdate(ps, k, c[..]);
      PartAt(ps, k);
      StretchSpliced(flat, Start(ps, k), ps[k], at, data, c[..]);
    }

    /** The bytes before position `done` have been brought to their final state. */
    ghost predicate Written(before: seq<Byte>, off: nat, data: seq<Byte>, done: nat)
      reads this, chunks
    {
      var now := Flat();
      && (|now| == |before| || |now| == off + |data| > |before|)
      && (forall i :: off <= i < done && i < off + |data| && i < |now| ==> now[i] == data[i - off])
      && (forall i :: 0 <= i < |before| && !(off <= i < done) ==> now[i] == before[i])
    }

    lemma ChunkStart(k: nat)
      requires k < |chunks|
      ensures Start(Parts(), k + 1) == Start(Parts(), k) + chunks[k].Length <= |Flat()|
    {
      PartAt(Parts(), k);
    }

    lemma StartFits(k: nat)
      requires k <= |chunks|
      ensures Start(Parts(), k) <= |Flat()|
      ensures k == |chunks| ==> Start(Parts(), k) == |Flat()|
    {
      StartMonotone(Parts(), k, |chunks|);
      assert Parts()[..|chunks|] == Parts();
    }

    lemma StartZero()
      ensures Start(Parts(), 0) == 0
    {
      assert Parts()[..0] == [];
    }

    /** At the end of the list: a new tail chunk for everything that is left to write. */
    method GrowTail(left: nat, ghost before: seq<Byte>, ghost off: nat, ghost data: seq<Byte>, ghost done: nat)
      requires Valid() && left > 0 && done + left == off + |data|
      requires done == Start(Parts(), |chunks|) && Written(before, off, data, done)
      modifies this
      ensures Valid() && |chunks| == |old(chunks)| + 1 && chunks[..|old(chunks)|] == old(chunks)
      ensures fresh(chunks[|old(chunks)|])
      ensures chunks[|old(chunks)|].Length == left
      ensures done == Start(Parts(), |old(chunks)|) && Written(before, off, data, done)
    {
      StartFits(|chunks|);
      var tail := new Byte[left];
      ghost var ps := Parts();
      AddTail(tail);
      assert Parts()[..|ps|] == ps;
      assert ps[..|ps|] == ps;
    }

    /** The body of buffer_write's chunk loop: `size` bytes of chunk `k`, which starts at `offset`. */
    method WriteChunk(k: nat, size: nat, ghost before: seq<Byte>, off: nat, data: seq<Byte>, offset: nat)
      requires Valid() && k < |chunks| && offset == Start(Parts(), k) && size <= chunks[k].Length
      requires offset + size <= off + |data| && Written(before, off, data, offset)
      modifies chunks[k]
      ensures Valid() && Written(before, off, data, offset + size)
      ensures Start(Parts(), k + 1) == offset + chunks[k].Length <= |Flat()|
    {
      ghost var ps := Parts();
      ChunkStart(k);
      if off >= offset && offset + size > off {
        var diff := off - offset;
        Fill(k, diff, data[..size - diff]);
      } else if offset >= off {
        Fill(k, 0, data[offset - off..offset - off + size]);
      }
      assert Parts()[..k] == ps[..k];
      ChunkStart(k);
    }

    /** buffer_write: writes `data` at `off`, extending the buffer at its tail if necessary. */
    method Write(off: nat, data: seq<Byte>) returns (end: nat)
      requires Valid()
      modifies this, chunks
      ensures Valid() && end == off + |data|
      ensures Spliced(old(Flat()), off, data, Flat())
      ensures forall c :: c in chunks ==> c in old(chunks) || fresh(c)
    {
      hide Concat, Start;
      end := off + |data|;
      ghost var before := Flat();
      var left: nat, offset: nat, k: nat := end, 0, 0;
      StartZero();
      while left > 0
        invariant Valid() && k <= |chunks| && offset + left == end
        invariant left > 0 ==> offset == Start(Parts(), k)
        invariant left == 0 ==> end <= |Flat()|
        invariant Written(before, off, data, offset)
        invariant forall c :: c in chunks ==> c in old(chunks) || fresh(c)
        decreases left, |chunks| - k
      {
        if k == |chunks| {
          GrowTail(left, before, off, data, offset);
        }
        var size := if chunks[k].Length > left then left else chunks[k].Length;
        assert chunks[k] in chunks;
        WriteChunk(k, size, before, off, data, offset);
        offset, left, k := offset + size, left - size, k + 1;
      }
    }

    /** `done` bytes from `off` on have been copied, and no others. */
    ghost predicate Copied(out: seq<Byte>, before: seq<Byte>, flat: seq<Byte>, off: nat, done: nat) {
      && |out| == |before| >= done && (done > 0 ==> off + done <= |flat|)
      && (forall i :: 0 <= i < done ==> out[i] == flat[off + i])
      && out[done..] == before[done..]
    }

    /** The body of buffer_read's chunk loop: the part behind `off` of the first `size` bytes of chunk `k`. */
    method ReadChunk(k: nat, size: nat, off: nat, offset: nat, out: array<Byte>, processed0: nat,
                     ghost before: seq<Byte>)
      returns (processed: nat)
      requires k < |chunks| && out !in chunks && offset == Start(Parts(), k) && size <= chunks[k].Length
      requires Copied(out[..], before, Flat(), off, processed0)
      requires processed0 == Max(0, offset - off) && Max(0, offset + size - off) <= out.Length
      modifies out
      ensures Parts() == old(Parts()) && Flat() == old(Flat())
      ensures processed == Max(0, offset + size - off)
      ensures Start(Parts(), k + 1) == offset + chunks[k].Length && offset + size <= |Flat()|
      ensures Copied(out[..], before, Flat(), off, processed)
    {
      hide Concat, Start;
      ghost var flat, ps := Flat(), Parts();
      processed := processed0;
      ChunkStart(k);
      PartAt(Parts(), k);
      var c := chunks[k];
      ghost var data := flat[offset..offset + c.Length];
      assert c[..] == data;
      if off >= offset && offset + size > off {
        var diff := off - offset;
        forall i | 0 <= i < size - diff { out[i] := c[diff + i]; }
        processed := processed + (size - diff);
      } else if offset >= off {
        forall i | 0 <= i < size { out[offset - off + i] := c[i]; }
        processed := processed + size;
      }
      assert Parts() == ps;
    }

    /** buffer_read: copies up to `n` bytes from `off` into `out`, clipped to the end of the buffer. */
    method Read(off: nat, out: array<Byte>, n: nat) returns (processed: nat)
      requires Valid() && out !in chunks && n <= out.Length
      modifies out
      ensures Flat() == old(Flat()) && Valid()
      ensures processed == Max(0, Min(off + n, |Flat()|) - off)
      ensures out[..processed] == Flat()[Min(off, |Flat()|)..Min(off, |Flat()|) + processed]
      ensures out[processed..] == old(out[processed..])
    {
      hide Concat, Start;
      ghost var flat, ps := Flat(), Parts();
      processed := 0;
      var left: nat, offset: nat, k: nat := off + n, 0, 0;
      StartZero();
      while left > 0
        invariant k <= |chunks| && offset + left == off + n && Parts() == ps && Flat() == flat
        invariant left > 0 ==> offset == Start(Parts(), k)
        invariant offset <= |Flat()|
        invariant processed == Max(0, offset - off) <= n
        invariant Copied(out[..], old(out[..]), flat, off, processed)
        decreases |chunks| - k
      {
        if k == |chunks| {
          StartFits(k);
          break;
        }
        var size := if chunks[k].Length > left then left else chunks[k].Length;
        processed := ReadChunk(k, size, off, offset, out, processed, old(out[..]));
        assert Parts() == ps;
        offset, left, k := offset + size, left - size, k + 1;
      }
    }

    /** A seek at the start of a buffer whose first chunk is empty finds that chunk, and no bytes. */
    ghost predicate Stuck(off: nat)
      reads this
    {
      off == 0 && chunks != [] && chunks[0].Length == 0
    }

    /** A seek succeeds: at the start whenever there is a chunk, elsewhere inside the buffer. */
    ghost predicate Seekable(off: nat)
      reads this, chunks
    {
      if off == 0 then chunks != [] else off < |Flat()|
    }

    /** Except where a seek is stuck, it succeeds exactly inside the buffer. */
    lemma SeekableInside(off: nat)
      ensures Seekable(off) <==> off < |Flat()| || Stuck(off)
    {
      if chunks != [] { ChunkStart(0); } else { assert Parts() == []; }
    }

    /** buffer_seek: the chunk that holds byte `off`, the position in it, and the bytes left there. */
    method Seek(off: nat) returns (found: bool, k: nat, pos: nat, rest: nat)
      requires Valid()
      ensures found ==> k < |chunks| && pos + rest == chunks[k].Length && off + rest <= |Flat()|
                        && chunks[k][pos..] == Flat()[off..off + rest]
      ensures found <==> Seekable(off)
      ensures found ==> (rest == 0 <==> Stuck(off))
    {
      hide Concat, Start;
      k, pos, rest := 0, 0, 0;
      StartZero();
      if off == 0 {
        if chunks == [] { StartFits(0); return false, 0, 0, 0; }
        rest := chunks[0].Length;
        ChunkStart(0);
        PartAt(Parts(), 0);
        return true, 0, 0, rest;
      }
      var left: nat, offset: nat := size, 0;
      while left > 0
        invariant k <= |chunks| && offset == Start(Parts(), k) <= off && offset + left == size
        decreases |chunks| - k
      {
        StartFits(k);
        ChunkStart(k);
        var c := chunks[k];
        if offset + c.Length > off {
          PartAt(Parts(), k);
          pos := off - offset;
          rest := c.Length - pos;
          assert c[pos..] == c[..][pos..];
          return true, k, pos, rest;
        }
        var step := if c.Length > left then left else c.Length;
        offset, left, k := offset + step, left - step, k + 1;
      }
      found := false;
    }

    /** buffer_defragment: afterwards the buffer is one chunk with the same bytes. */
    method Defragment() returns (chunk: array<Byte>)
      requires Valid() && chunks != []
      modifies this
      ensures Valid() && chunks == [chunk] && Flat() == old(Flat()) == chunk[..]
    {
      if |chunks| == 1 {
        OneChunk();
        return chunks[0];
      }
      chunk := new Byte[size];
      ghost var flat := Flat();
      var processed := Read(0, chunk, size);
      assert chunk[..processed] == chunk[..] && flat[0..size] == flat;
      chunks, size := [], 0;
      assert Parts() == [];
      AddTail(chunk);
    }

    lemma OneChunk()
      requires |chunks| == 1
      ensures Flat() == chunks[0][..]
    {
      assert Parts()[..0] == [];
      assert Concat([]) + Parts()[0] == Parts()[0];
    }
  }

  /** A position in a buffer's chunks: `rest` bytes of chunk `k` from `pos` on, and the offset behind them. */
  datatype Cursor = Cursor(k: nat, pos: nat, rest: nat, at: nat)

  /** The next `rest` bytes at `off` are those of chunk `k` from `pos` on. */
  ghost predicate Window(b: ChunkedBuffer, k: nat, pos: nat, rest: nat, off: nat)
    reads b, b.chunks
  {
    && k < |b.chunks| && pos + rest == b.chunks[k].Length && off + rest <= |b.Flat()|
    && b.chunks[k][pos..] == b.Flat()[off..off + rest]
  }

  /** The cursor stands at offset `off`, with the rest of its chunk, if any, in view. */
  ghost predicate Reading(b: ChunkedBuffer, c: Cursor, off: nat)
    reads b, b.chunks
  {
    c.at == off + c.rest && (c.rest > 0 ==> Window(b, c.k, c.pos, c.rest, off))
  }

  /** The first `size` bytes of a window, and the window behind them. */
  lemma WindowSlice(b: ChunkedBuffer, k: nat, pos: nat, rest: nat, off: nat, size: nat)
    requires Window(b, k, pos, rest, off) && size <= rest
    ensures k < |b.chunks| && pos + size <= b.chunks[k].Length && off + size <= |b.Flat()|
    ensures b.chunks[k][pos..pos + size] == b.Flat()[off..off + size]
    ensures Window(b, k, pos + size, rest - size, off + size)
  {
    hide Concat;
    assert b.chunks[k][pos..pos + size] == b.chunks[k][pos..][..size];
    assert b.chunks[k][pos + size..] == b.chunks[k][pos..][size..];
  }

  /** Seeks the next chunk once the current one is used up. Where the seek is stuck it makes no progress: the cursor
      that comes back is used up again, and stands at the same offset. */
  method NextChunk(b: ChunkedBuffer, c: Cursor, ghost off: nat) returns (found: bool, d: Cursor)
    requires b.Valid() && Reading(b, c, off)
    ensures found <==> c.rest > 0 || b.Seekable(off)
    ensures found ==> Reading(b, d, off) && (d.rest == 0 <==> c.rest == 0 && b.Stuck(off))
    ensures c.rest == 0 && b.Stuck(off) ==> found && d.at == c.at
    ensures !found ==> off >= |b.Flat()|
  {
    b.SeekableInside(off);
    found, d := true, c;
    if c.rest == 0 {
      var k, pos, rest;
      found, k, pos, rest := b.Seek(c.at);
      d := Cursor(k, pos, rest, c.at + rest);
    }
  }

  /** The next `size` bytes under the cursor, and the cursor behind them. */
  method Take(b: ChunkedBuffer, c: Cursor, ghost off: nat, size: nat) returns (data: seq<Byte>, d: Cursor)
    requires Reading(b, c, off) && size <= c.rest && c.rest > 0
    ensures off + size <= |b.Flat()| && data == b.Flat()[off..off + size]
    ensures Reading(b, d, off + size)
  {
    hide Concat;
    WindowSlice(b, c.k, c.pos, c.rest, off, size);
    data := b.chunks[c.k][c.pos..c.pos + size];
    d := Cursor(c.k, c.pos + size, c.rest - size, c.at);
  }

  /** The next pieces of both buffers, of the same length and at most `left` bytes. */
  method NextPieces(b1: ChunkedBuffer, c1: Cursor, ghost at1: nat, b2: ChunkedBuffer, c2: Cursor, ghost at2: nat,
                    left: nat)
    returns (found: bool, d1: seq<Byte>, d2: seq<Byte>, n1: Cursor, n2: Cursor)
    requires b1.Valid() && b2.Valid() && Reading(b1, c1, at1) && Reading(b2, c2, at2) && left > 0
    requires !(c1.rest == 0 && b1.Stuck(at1) && (c2.rest > 0 || b2.Seekable(at2)))
    requires !(c2.rest == 0 && b2.Stuck(at2) && (c1.rest > 0 || b1.Seekable(at1)))
    ensures !found ==> at1 >= |b1.Flat()| || at2 >= |b2.Flat()|
    ensures found ==> 0 < |d1| == |d2| <= left
    ensures found ==> at1 + |d1| <= |b1.Flat()| && d1 == b1.Flat()[at1..at1 + |d1|] && Reading(b1, n1, at1 + |d1|)
    ensures found ==> at2 + |d2| <= |b2.Flat()| && d2 == b2.Flat()[at2..at2 + |d2|] && Reading(b2, n2, at2 + |d2|)
  {
    hide Concat, ChunkedBuffer.Parts, ChunkedBuffer.Flat, ChunkedBuffer.Valid, Reading, ChunkedBuffer.Seekable,
      ChunkedBuffer.Stuck;
    d1, d2 := [], [];
    found, n1 := NextChunk(b1, c1, at1);
    if !found { n2 := c2; return; }
    found, n2 := NextChunk(b2, c2, at2);
    if !found { return; }
    var size := if n1.rest < n2.rest then n1.rest else n2.rest;
    size := if size < left then size else left;
    d1, n1 := Take(b1, n1, at1, size);
    d2, n2 := Take(b2, n2, at2, size);
  }

  /** Both seeks succeed and one of them is stuck: every turn of the comparison loop is like the first. */
  ghost predicate CompareHangs(b1: ChunkedBuffer, off1: nat, b2: ChunkedBuffer, off2: nat, n: nat)
    reads b1, b1.chunks, b2, b2.chunks
  {
    n > 0 && b1.Seekable(off1) && b2.Seekable(off2) && (b1.Stuck(off1) || b2.Stuck(off2))
  }

  /** A turn of the comparison loop with one buffer stuck: no byte is compared, and the next turn finds the same. */
  method HangTurn(stuck: ChunkedBuffer, c: Cursor, ghost at: nat, other: ChunkedBuffer, d: Cursor, ghost at2: nat,
                  left: nat)
    returns (size: nat, c': Cursor, d': Cursor)
    requires stuck.Valid() && stuck.Stuck(at) && c.rest == 0 && Reading(stuck, c, at)
    requires other.Valid() && Reading(other, d, at2) && (d.rest > 0 || other.Seekable(at2))
    ensures size == 0
    ensures c'.rest == 0 && Reading(stuck, c', at) && Reading(other, d', at2) && (d'.rest > 0 || other.Seekable(at2))
  {
    hide Concat, Reading;
    var found;
    found, c' := NextChunk(stuck, c, at);
    found, d' := NextChunk(other, d, at2);
    size := if c'.rest < d'.rest then c'.rest else d'.rest;
    size := if size < left then size else left;
  }

  /** buffer_memcmp: the comparison does not depend on how the two buffers are cut into chunks. */
  method Compare(b1: ChunkedBuffer, off1: nat, b2: ChunkedBuffer, off2: nat, n: nat) returns (r: Comparison)
    requires b1.Valid() && b2.Valid() && !CompareHangs(b1, off1, b2, off2, n)
    ensures r == CompareFlat(b1.Flat(), off1, b2.Flat(), off2, n)
  {
    hide Concat, CompareFlat, Memcmp, ChunkedBuffer.Parts, ChunkedBuffer.Flat, ChunkedBuffer.Valid, EqualSoFar, Reading,
      ChunkedBuffer.Seekable;
    ghost var f1, f2 := b1.Flat(), b2.Flat();
    var left: nat, cur1, cur2 := n, StartAt(b1, off1), StartAt(b2, off2);
    ghost var done: nat := 0;
    NothingCompared(f1, off1, f2, off2);
    b1.SeekableInside(off1);
    b2.SeekableInside(off2);
    while left > 0
      invariant done + left == n
      invariant EqualSoFar(f1, off1, f2, off2, done)
      invariant Reading(b1, cur1, off1 + done) && Reading(b2, cur2, off2 + done)
      invariant done == 0 ==> cur1.rest == cur2.rest == 0
    {
      var found, d1, d2;
      found, d1, d2, cur1, cur2 := NextPieces(b1, cur1, off1 + done, b2, cur2, off2 + done, left);
      if !found { CompareInvalid(f1, off1, f2, off2, done, n); return Invalid; }
      var size := |d1|;
      CompareStep(f1, off1, f2, off2, done, d1, d2, n);
      var sign := Memcmp(d1, d2);
      if sign != 0 { return Order(sign); }
      left := left - size;
      done := done + size;
    }
    CompareEqual(f1, off1, f2, off2, n);
    r := Order(0);
  }

  /** Before the first seek. */
  function StartAt(b: ChunkedBuffer, off: nat): (c: Cursor)
    reads b, b.chunks
    ensures Reading(b, c, off) && c.rest == 0
  {
    Cursor(0, 0, 0, off)
  }

  lemma CutSplit(f: seq<Byte>, off: nat, done: nat, size: nat, m: nat)
    requires done + size <= m && off + m <= |f|
    ensures Cut(f, off, m) == Cut(f, off, done) + (f[off + done..off + done + size] + f[off + done + size..off + m])
    ensures Cut(f, off, done + size) == Cut(f, off, done) + f[off + done..off + done + size]
  {
  }

  /** The first `done` bytes of both stretches exist and agree. */
  ghost predicate EqualSoFar(f1: seq<Byte>, off1: nat, f2: seq<Byte>, off2: nat, done: nat) {
    && (done > 0 ==> off1 + done <= |f1| && off2 + done <= |f2|)
    && Cut(f1, off1, done) == Cut(f2, off2, done)
  }

  lemma NothingCompared(f1: seq<Byte>, off1: nat, f2: seq<Byte>, off2: nat)
    ensures EqualSoFar(f1, off1, f2, off2, 0)
  {
  }

  lemma CompareInvalid(f1: seq<Byte>, off1: nat, f2: seq<Byte>, off2: nat, done: nat, n: nat)
    requires EqualSoFar(f1, off1, f2, off2, done) && done < n && (off1 + done >= |f1| || off2 + done >= |f2|)
    ensures CompareFlat(f1, off1, f2, off2, n) == Invalid
  {
    assert Min(|Cut(f1, off1, n)|, |Cut(f2, off2, n)|) == done;
  }

  lemma CompareEqual(f1: seq<Byte>, off1: nat, f2: seq<Byte>, off2: nat, n: nat)
    requires EqualSoFar(f1, off1, f2, off2, n)
    ensures CompareFlat(f1, off1, f2, off2, n) == Order(0)
  {
    if n == 0 { assert Cut(f1, off1, 0) == [] == Cut(f2, off2, 0); }
  }

  /** After `done` equal bytes, the next ones, `a` and `b`, decide or extend the equality. */
  lemma CompareStep(f1: seq<Byte>, off1: nat, f2: seq<Byte>, off2: nat, done: nat, a: seq<Byte>, b: seq<Byte>, n: nat)
    requires |a| == |b| && done + |a| <= n
    requires off1 + done + |a| <= |f1| && a == f1[off1 + done..off1 + done + |a|]
    requires off2 + done + |b| <= |f2| && b == f2[off2 + done..off2 + done + |b|]
    requires EqualSoFar(f1, off1, f2, off2, done)
    ensures Memcmp(a, b) != 0 ==> CompareFlat(f1, off1, f2, off2, n) == Order(Memcmp(a, b))
    ensures Memcmp(a, b) == 0 ==> EqualSoFar(f1, off1, f2, off2, done + |a|)
  {
    hide Memcmp, CompareFlat, EqualSoFar, Cut;
    if a == b {
      EqualExtends(f1, off1, f2, off2, done, a);
    } else {
      CompareDecided(f1, off1, f2, off2, done, a, b, n);
    }
  }

  lemma EqualExtends(f1: seq<Byte>, off1: nat, f2: seq<Byte>, off2: nat, done: nat, a: seq<Byte>)
    requires off1 + done + |a| <= |f1| && a == f1[off1 + done..off1 + done + |a|]
    requires off2 + done + |a| <= |f2| && a == f2[off2 + done..off2 + done + |a|]
    requires EqualSoFar(f1, off1, f2, off2, done)
    ensures EqualSoFar(f1, off1, f2, off2, done + |a|)
  {
    hide Cut;
    CutSplit(f1, off1, done, |a|, done + |a|);
    CutSplit(f2, off2, done, |a|, done + |a|);
  }

  lemma CompareDecided(f1: seq<Byte>, off1: nat, f2: seq<Byte>, off2: nat, done: nat, a: seq<Byte>, b: seq<Byte>,
                       n: nat)
    requires |a| == |b| && done + |a| <= n && a != b
    requires off1 + done + |a| <= |f1| && a == f1[off1 + done..off1 + done + |a|]
    requires off2 + done + |b| <= |f2| && b == f2[off2 + done..off2 + done + |b|]
    requires EqualSoFar(f1, off1, f2, off2, done)
    ensures CompareFlat(f1, off1, f2, off2, n) == Order(Memcmp(a, b))
  {
    hide Memcmp;
    var m := Min(|Cut(f1, off1, n)|, |Cut(f2, off2, n)|);
    var x := CutDecided(f1, off1, done, a, m);
    var y := CutDecided(f2, off2, done, b, m);
    MemcmpConcat(Cut(f1, off1, done), Cut(f2, off2, done), a + x, b + y);
    MemcmpConcat(a, b, x, y);
  }

  lemma CutDecided(f: seq<Byte>, off: nat, done: nat, a: seq<Byte>, m: nat) returns (x: seq<Byte>)
    requires done + |a| <= m && off + m <= |f| && a == f[off + done..off + done + |a|]
    ensures Cut(f, off, m) == Cut(f, off, done) + (a + x)
    ensures |x| == m - done - |a|
  {
    x := f[off + done + |a|..off + m];
    CutSplit(f, off, done, |a|, m);
  }

  /** Writes data to `dst`; what `src` holds, and where a cursor in it stands, is unaffected. */
  method CopyChunk(dst: ChunkedBuffer, off: nat, ghost src: ChunkedBuffer, data: seq<Byte>, ghost c: Cursor,
                   ghost at: nat)
    requires dst != src && dst.Valid() && src.Valid() && Apart(dst, src) && Reading(src, c, at)
    modifies dst, dst.chunks
    ensures dst.Valid() && src.Valid() && Apart(dst, src) && Reading(src, c, at)
    ensures src.Flat() == old(src.Flat()) && src.chunks == old(src.chunks)
    ensures Spliced(old(dst.Flat()), off, data, dst.Flat())
    ensures forall c :: c in dst.chunks ==> c in old(dst.chunks) || fresh(c)
  {
    hide Concat, Spliced;
    var end := dst.Write(off, data);
    forall i | 0 <= i < |src.chunks| ensures src.chunks[i][..] == old(src.chunks[i][..]) {
      assert src.chunks[i] in src.chunks && src.chunks[i] !in old(dst.chunks);
    }
    assert src.Parts() == old(src.Parts());
  }

  ghost predicate Apart(a: ChunkedBuffer, b: ChunkedBuffer)
    reads a, b
  {
    forall c :: c in a.chunks ==> c !in b.chunks
  }

  /** `now` is `before` with the first `done` bytes of the source stretch written at `off1`. */
  ghost predicate Copied(before: seq<Byte>, off1: nat, f: seq<Byte>, off2: nat, done: nat, now: seq<Byte>) {
    if done == 0 then now == before
    else off2 + done <= |f| && Spliced(before, off1, Cut(f, off2, done), now)
  }

  lemma CopiedNothing(before: seq<Byte>, off1: nat, f: seq<Byte>, off2: nat)
    ensures Copied(before, off1, f, off2, 0, before)
  {
  }

  lemma CopyStep(before: seq<Byte>, off1: nat, f: seq<Byte>, off2: nat, done: nat, size: nat, mid: seq<Byte>,
                 after: seq<Byte>)
    requires off2 + done + size <= |f| && size > 0 && Copied(before, off1, f, off2, done, mid)
    requires Spliced(mid, off1 + done, f[off2 + done..off2 + done + size], after)
    ensures Copied(before, off1, f, off2, done + size, after)
  {
    hide Spliced;
    CutSplit(f, off2, done, size, done + size);
    if done > 0 {
      SplicedTwice(before, off1, Cut(f, off2, done), mid, f[off2 + done..off2 + done + size], after);
    } else {
      assert Cut(f, off2, size) == f[off2..off2 + size];
    }
  }

  /** Everything asked for, or everything there was, has been copied. */
  lemma CopiedAll(before: seq<Byte>, off1: nat, f: seq<Byte>, off2: nat, done: nat, n: nat, now: seq<Byte>)
    requires Copied(before, off1, f, off2, done, now) && (done == n || (done < n && off2 + done >= |f|))
    ensures done == n <==> n == |Cut(f, off2, n)|
    ensures if Cut(f, off2, n) == [] then now == before else Spliced(before, off1, Cut(f, off2, n), now)
  {
    hide Spliced;
  }

  /** A turn of the copying loop with the source stuck: no byte is written, though the destination may grow up to the
      offset, and the source, the cursor and what is left stay as they were. */
  method CopyHangTurn(dst: ChunkedBuffer, off1: nat, src: ChunkedBuffer, c: Cursor, ghost at: nat, left: nat)
    returns (c': Cursor, off1': nat, left': nat)
    requires dst != src && dst.Valid() && src.Valid() && Apart(dst, src)
    requires src.Stuck(at) && c.rest == 0 && Reading(src, c, at)
    modifies dst, dst.chunks
    ensures left' == left && off1' == off1 && c'.rest == 0 && c'.at == c.at
    ensures dst.Valid() && src.Valid() && Apart(dst, src) && src.Stuck(at) && Reading(src, c', at)
    ensures src.Flat() == old(src.Flat()) && src.chunks == old(src.chunks)
    ensures Spliced(old(dst.Flat()), off1, [], dst.Flat())
  {
    hide Concat, Spliced, Reading;
    var found;
    found, c' := NextChunk(src, c, at);
    var size := if c'.rest < left then c'.rest else left;
    CopyChunk(dst, off1, src, [], c', at);
    off1', left' := off1 + size, left - size;
  }

  /** buffer_memcpy between buffers that share no memory: the clipped stretch of `src` is written to `dst`. */
  method Copy(dst: ChunkedBuffer, off1: nat, src: ChunkedBuffer, off2: nat, n: nat) returns (ok: bool)
    requires dst != src && dst.Valid() && src.Valid() && (n > 0 ==> !src.Stuck(off2))
    requires Apart(dst, src)
    modifies dst, dst.chunks
    ensures dst.Valid() && src.Valid() && src.Flat() == old(src.Flat())
    ensures ok <==> n == |Cut(src.Flat(), off2, n)|
    ensures var data := Cut(src.Flat(), off2, n);
      if data == [] then dst.Flat() == old(dst.Flat()) else Spliced(old(dst.Flat()), off1, data, dst.Flat())
  {
    hide Concat, ChunkedBuffer.Parts, ChunkedBuffer.Flat, ChunkedBuffer.Valid, Copied, Reading, Cut, Spliced;
    ghost var f, before, chunks := src.Flat(), dst.Flat(), src.chunks;
    var left: nat, cur := n, StartAt(src, off2);
    ghost var done: nat := 0;
    CopiedNothing(before, off1, f, off2);
    while left > 0
      invariant done + left == n && (n > 0 ==> !src.Stuck(off2))
      invariant dst.Valid() && src.Valid() && src.Flat() == f && src.chunks == chunks
      invariant Apart(dst, src)
      invariant forall c :: c in dst.chunks ==> c in old(dst.chunks) || fresh(c)
      invariant Copied(before, off1, f, off2, done, dst.Flat())
      invariant Reading(src, cur, off2 + done) && (done == 0 ==> cur.rest == 0)
    {
      var found;
      found, cur := NextChunk(src, cur, off2 + done);
      if !found { CopiedAll(before, off1, f, off2, done, n, dst.Flat()); return false; }
      var size := if cur.rest < left then cur.rest else left;
      ghost var mid := dst.Flat();
      var data;
      data, cur := Take(src, cur, off2 + done, size);
      assert forall i :: 0 <= i < |dst.chunks| ==> dst.chunks[i] in dst.chunks;
      CopyChunk(dst, off1 + (n - left), src, data, cur, off2 + done + size);
      CopyStep(before, off1, f, off2, done, size, mid, dst.Flat());
      left := left - size;
      done := done + size;
    }
    CopiedAll(before, off1, f, off2, n, n, dst.Flat());
    ok := true;
  }
}
