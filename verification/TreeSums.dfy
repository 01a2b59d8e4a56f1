/** Prefix sums of block sizes, and the values a multi-level sum table has to hold. */
module TreeSums {
  import opened Arithmetic
  import opened Common

  /** A block: where it starts in the underlying storage, and its size. */
  datatype BlockInfo = BlockInfo(realOff: nat, size: nat)

  /** Total size of the first `n` blocks. */
  function Prefix(bs: seq<BlockInfo>, n: nat): nat
    requires n <= |bs|
  {
    if n == 0 then 0 else Prefix(bs, n - 1) + bs[n-1].size
  }

  /** Total size of the blocks before position `x`, which may lie behind the last block. */
  function Upto(bs: seq<BlockInfo>, x: nat): nat {
    Prefix(bs, Min(x, |bs|))
  }

  /** Total size of the blocks covered by node `i` of a level whose nodes span `span` blocks. */
  function Node(bs: seq<BlockInfo>, span: nat, i: nat): int {
    Upto(bs, i * span + span) - Upto(bs, i * span)
  }

  lemma {:induction false} PrefixMonotone(bs: seq<BlockInfo>, m: nat, n: nat)
    requires m <= n <= |bs|
    ensures Prefix(bs, m) <= Prefix(bs, n)
  {
    if m < n {
      PrefixMonotone(bs, m, n - 1);
    }
  }

  lemma {:induction false} PrefixSame(bs: seq<BlockInfo>, cs: seq<BlockInfo>, n: nat)
    requires n <= |bs| && n <= |cs| && forall k :: 0 <= k < n ==> bs[k].size == cs[k].size
    ensures Prefix(bs, n) == Prefix(cs, n)
  {
    if n > 0 {
      PrefixSame(bs, cs, n - 1);
    }
  }

  /** Changing the size of block `v` shifts the prefix sums behind it. */
  lemma {:induction false} PrefixUpdate(bs: seq<BlockInfo>, v: nat, size: nat, n: nat)
    requires v < |bs| && n <= |bs|
    ensures Prefix(bs[v := bs[v].(size := size)], n) == Prefix(bs, n) + if n > v then size - bs[v].size else 0
  {
    if n > 0 {
      PrefixUpdate(bs, v, size, n - 1);
    }
  }

  lemma {:induction false} PrefixBound(bs: seq<BlockInfo>, n: nat, limit: nat)
    requires n <= |bs| && forall k :: 0 <= k < |bs| ==> bs[k].size < limit
    ensures Prefix(bs, n) <= n * limit
  {
    if n > 0 {
      PrefixBound(bs, n - 1, limit);
      assert n * limit == (n - 1) * limit + limit;
    }
  }

  // ---- linear search ----

  /** Position found for a virtual offset. */
  datatype Place = Nowhere | At(vid: nat, realOffset: nat)

  /** Reference search: the first block whose inclusive prefix sum exceeds `offset`, looking from block `k` on. */
  function LinearFind(bs: seq<BlockInfo>, offset: nat, k: nat): Place
    requires k <= |bs| && Prefix(bs, k) <= offset
    decreases |bs| - k
  {
    if k == |bs| then Nowhere
    else if offset < Prefix(bs, k + 1) then At(k, bs[k].realOff + (offset - Prefix(bs, k)))
    else LinearFind(bs, offset, k + 1)
  }

  /** Any block that brackets the offset is the one linear search finds. */
  lemma {:induction false} LinearFindUnique(bs: seq<BlockInfo>, offset: nat, k: nat, v: nat)
    requires k <= v < |bs| && Prefix(bs, v) <= offset < Prefix(bs, v + 1) && Prefix(bs, k) <= offset
    ensures LinearFind(bs, offset, k) == At(v, bs[v].realOff + (offset - Prefix(bs, v)))
    decreases v - k
  {
    if k < v {
      PrefixMonotone(bs, k + 1, v);
      LinearFindUnique(bs, offset, k + 1, v);
    }
  }

  /** Byte `d` of block `v` is found where it is stored, from its virtual offset. */
  lemma FindsByte(bs: seq<BlockInfo>, v: nat, d: nat)
    requires v < |bs| && d < bs[v].size
    ensures LinearFind(bs, Prefix(bs, v) + d, 0) == At(v, bs[v].realOff + d)
  {
    PrefixMonotone(bs, 0, v);
    LinearFindUnique(bs, Prefix(bs, v) + d, 0, v);
  }

  lemma {:induction false} LinearFindNowhere(bs: seq<BlockInfo>, offset: nat, k: nat)
    requires k <= |bs| && Prefix(bs, |bs|) <= offset && Prefix(bs, k) <= offset
    ensures LinearFind(bs, offset, k) == Nowhere
    decreases |bs| - k
  {
    if k < |bs| {
      PrefixMonotone(bs, k + 1, |bs|);
      LinearFindNowhere(bs, offset, k + 1);
    }
  }

  // ---- levels ----

  /** Offset of level `n` in the table: 1 + b + ... + b^(n-1). */
  function Geo(b: nat, n: nat): nat {
    if n == 0 then 0 else Geo(b, n - 1) + Pow(b, n - 1)
  }

  lemma {:induction false} GeoMonotone(b: nat, m: nat, n: nat)
    requires m <= n
    ensures Geo(b, m) <= Geo(b, n)
  {
    if m < n {
      GeoMonotone(b, m, n - 1);
    }
  }

  /** A node that starts at or before the end of the `n` blocks exists in its level. */
  lemma NodeExists(b: nat, nlevels: nat, n: nat, j: nat, i: nat)
    requires b > 1 && j < nlevels && n < Pow(b, nlevels) && i * Pow(b, nlevels - j) <= n
    ensures i < Pow(b, j)
    ensures Geo(b, j) + i < Geo(b, j + 1) <= Geo(b, nlevels)
  {
    PowAdd(b, j, nlevels - j);
    if i >= Pow(b, j) {
      MulLe(Pow(b, j), i, Pow(b, nlevels - j));
    }
    GeoMonotone(b, j + 1, nlevels);
  }

  /** The last node that starts at or before position `n`. */
  lemma LastNode(n: nat, span: nat)
    requires span > 0
    ensures (n / span) * span <= n < (n / span) * span + span
  {
    assert n == (n / span) * span + n % span;
  }

  /** Nodes up to the last one start at or before `n`; later ones do not. */
  lemma NodeStarts(n: nat, span: nat, i: nat)
    requires span > 0
    ensures i <= n / span <==> i * span <= n
  {
    LastNode(n, span);
    var q := n / span;
    if i <= q { MulLe(i, q, span); } else { MulLe(q + 1, i, span); }
  }
}
