/** The size tree: sums of block sizes on several levels of a fixed fan-out, in one flat table. */
module SizeTree {
  import opened Arithmetic
  import opened Common
  import opened TreeSums

  const WORD32: nat := 0x1_0000_0000
  const WORD64: nat := 0x1_0000_0000_0000_0000

  /** The level starting at `base`, with nodes of `span` blocks, after `done` blocks have been summed:
      finished nodes hold their sums, `acc` holds the sum of the node under way. */
  ghost predicate LevelAt(table: seq<nat>, base: nat, span: nat, bs: seq<BlockInfo>, done: nat, acc: nat)
    requires span > 0 && done <= |bs|
  {
    && base + done / span < |table|
    && acc == Prefix(bs, done) - Upto(bs, done / span * span)
    && forall i :: 0 <= i < done / span ==> table[base + i] == Node(bs, span, i)
  }

  /** The level holds the sum of every node up to the one behind the last block. */
  ghost predicate LevelDone(table: seq<nat>, base: nat, span: nat, bs: seq<BlockInfo>)
    requires span > 0
  {
    && base + |bs| / span < |table|
    && forall i :: 0 <= i <= |bs| / span ==> table[base + i] == Node(bs, span, i)
  }

  /** Summing one more block. */
  lemma LevelStep(table: seq<nat>, base: nat, span: nat, bs: seq<BlockInfo>, done: nat, acc: nat)
    requires span > 0 && done < |bs| && LevelAt(table, base, span, bs, done, acc)
    requires base + (done + 1) / span < |table|
    ensures done % span == span - 1 ==>
      LevelAt(table[base + done / span := acc + bs[done].size], base, span, bs, done + 1, 0)
    ensures done % span != span - 1 ==>
      LevelAt(table, base, span, bs, done + 1, acc + bs[done].size)
  {
    NextQuotient(done, span);
  }

  lemma NextQuotient(done: nat, span: nat)
    requires span > 0
    ensures done % span == span - 1 ==>
      (done + 1) / span == done / span + 1 && (done + 1) / span * span == done + 1 == done / span * span + span
    ensures done % span != span - 1 ==> (done + 1) / span == done / span
  {
    var q := done / span;
    assert done == q * span + done % span;
    if done % span == span - 1 {
      assert (q + 1) * span == q * span + span;
      ModUnique(done + 1, span, q + 1, 0);
    } else {
      ModUnique(done + 1, span, q, done % span + 1);
    }
  }

  /** Writing the sum under way finishes the level. */
  lemma LevelFlush(table: seq<nat>, base: nat, span: nat, bs: seq<BlockInfo>, acc: nat)
    requires span > 0 && LevelAt(table, base, span, bs, |bs|, acc)
    ensures LevelDone(table[base + |bs| / span := acc], base, span, bs)
  {
    LastNode(|bs|, span);
  }

  /** A write outside a level leaves it alone. */
  lemma LevelElsewhere(table: seq<nat>, at: nat, x: nat, base: nat, span: nat, bs: seq<BlockInfo>, done: nat, acc: nat)
    requires span > 0 && done <= |bs| && LevelAt(table, base, span, bs, done, acc)
    requires at < |table| && (at < base || base + done / span < at)
    ensures LevelAt(table[at := x], base, span, bs, done, acc)
  {
  }

  /** Resizing block `v` changes exactly the node over it, by the same amount. */
  lemma NodeShift(bs: seq<BlockInfo>, v: nat, size: nat, span: nat, i: nat)
    requires v < |bs| && span > 0
    ensures Node(bs[v := bs[v].(size := size)], span, i) ==
            Node(bs, span, i) + if i == v / span then size - bs[v].size else 0
  {
    Covers(v, span, i);
    var from, to := i * span, i * span + span;
    PrefixUpdate(bs, v, size, Min(from, |bs|));
    PrefixUpdate(bs, v, size, Min(to, |bs|));
  }

  lemma Covers(v: nat, span: nat, i: nat)
    requires span > 0
    ensures i < v / span ==> i * span + span <= v
    ensures i == v / span ==> i * span <= v < i * span + span
    ensures i > v / span ==> v < i * span
  {
    LastNode(v, span);
    var q := v / span;
    if i < q {
      MulLe(i + 1, q, span);
      assert (i + 1) * span == i * span + span;
    } else if i > q {
      MulLe(q + 1, i, span);
      assert (q + 1) * span == q * span + span;
    }
  }

  /** Adding the size change to that node brings the level up to date. */
  lemma LevelShift(table: seq<nat>, base: nat, span: nat, bs: seq<BlockInfo>, v: nat, size: nat)
    requires span > 0 && v < |bs| && LevelDone(table, base, span, bs) && size >= bs[v].size
    ensures base + v / span < |table|
    ensures LevelDone(table[base + v / span := table[base + v / span] + (size - bs[v].size)], base, span,
                      bs[v := bs[v].(size := size)])
    ensures table[base + v / span] + (size - bs[v].size) <= Prefix(bs[v := bs[v].(size := size)], |bs|)
  {
    hide Prefix, Node;
    var cs, q := bs[v := bs[v].(size := size)], v / span;
    LastNode(v, span);
    NodeStarts(|bs|, span, q);
    assert table[base + q] == Node(bs, span, q);
    forall i | 0 <= i <= |cs| / span
      ensures table[base + q := table[base + q] + (size - bs[v].size)][base + i] == Node(cs, span, i)
    {
      NodeShift(bs, v, size, span, i);
    }
    NodeShift(bs, v, size, span, q);
    NodeBound(cs, span, q);
  }

  lemma NodeBound(bs: seq<BlockInfo>, span: nat, i: nat)
    ensures Node(bs, span, i) <= Prefix(bs, |bs|)
  {
    PrefixMonotone(bs, Min(i * span + span, |bs|), |bs|);
  }

  class Tree {
    const elementsPerLevel: nat
    const readPerCalc: nat

    var chain: seq<BlockInfo>   // the underlying block store
    var blocksCount: nat
    var nlevels: nat
    var tof: array<nat>         // where each level starts in the table
    var lss: array<nat>         // how many blocks a node of each level spans
    var table: array<nat>

    ghost predicate Configured() {
      elementsPerLevel > 1 && readPerCalc >= 1
    }

    ghost function Span(j: nat): (r: nat)
      reads this
      requires Configured() && j <= nlevels
      ensures r > 0
    {
      Pow(elementsPerLevel, nlevels - j)
    }

    /** The level arrays describe `nlevels` levels of the configured fan-out. */
    ghost predicate Shaped()
      reads this, tof, lss
    {
      && Configured() && nlevels >= 1
      && tof != lss && tof != table && lss != table
      && tof.Length == lss.Length == nlevels && table.Length == Geo(elementsPerLevel, nlevels)
      && (forall j :: 0 <= j < nlevels ==> tof[j] == Geo(elementsPerLevel, j))
      && (forall j :: 0 <= j < nlevels ==> lss[j] == Span(j))
    }

    /** There are as many levels as the blocks need, and no more. */
    ghost predicate Fits()
      reads this, tof, lss
    {
      && Shaped() && blocksCount == |chain| < Pow(elementsPerLevel, nlevels)
      && Pow(elementsPerLevel, nlevels - 1) <= if chain == [] then 1 else |chain|
    }

    ghost predicate Summed()
      reads this, tof, lss, table
      requires Fits()
    {
      forall j :: 0 <= j < nlevels ==> LevelDone(table[..], Geo(elementsPerLevel, j), Span(j), chain)
    }

    /** A tree over at least one block: every node that a search may read holds the sum of its blocks. */
    ghost predicate Filled()
      reads this, tof, lss, table
    {
      Fits() && Summed() && chain != []
    }

    /** The same, or a tree without blocks, whose table may hold anything. */
    ghost predicate Valid()
      reads this, tof, lss, table
    {
      Fits() && (chain != [] ==> Summed())
    }

    /** Without blocks, or with one, there is a single level. */
    lemma OneLevel()
      requires Fits() && |chain| <= 1
      ensures nlevels == 1 && table.Length == 1
    {
      if nlevels > 1 { PowMonotone(elementsPerLevel, 1, nlevels - 1); }
      assert Pow(elementsPerLevel, 0) == 1 && Pow(elementsPerLevel, 1) == elementsPerLevel;
      assert Geo(elementsPerLevel, 0) == 0;
    }

    lemma SlotsExist(j: nat, n: nat)
      requires Fits() && j < nlevels && n <= |chain|
      ensures Geo(elementsPerLevel, j) + n / Span(j) < Geo(elementsPerLevel, j + 1) <= table.Length
    {
      hide Pow, Geo;
      LastNode(n, Span(j));
      NodeExists(elementsPerLevel, nlevels, |chain|, j, n / Span(j));
    }

    /** Progress of level `j` in a recalculation. */
    ghost predicate Level(j: nat, done: nat, acc: nat)
      reads this, table
      requires Configured() && j < nlevels && done <= |chain|
    {
      LevelAt(table[..], Geo(elementsPerLevel, j), Span(j), chain, done, acc)
    }

    lemma OtherLevel(j: nat, k: nat, before: seq<nat>, at: nat, x: nat, done: nat, acc: nat)
      requires Fits() && j < nlevels && k < nlevels && j != k && done <= |chain|
      requires Geo(elementsPerLevel, j) <= at < Geo(elementsPerLevel, j + 1)
      requires at < |before| && |before| == table.Length
      requires LevelAt(before, Geo(elementsPerLevel, k), Span(k), chain, done, acc)
      ensures LevelAt(before[at := x], Geo(elementsPerLevel, k), Span(k), chain, done, acc)
    {
      SlotsExist(k, done);
      if k < j { GeoMonotone(elementsPerLevel, k + 1, j); } else { GeoMonotone(elementsPerLevel, j + 1, k); }
      LevelElsewhere(before, at, x, Geo(elementsPerLevel, k), Span(k), chain, done, acc);
    }

    /** Adds block `ptr` to the running sum of every level. */
    method RecalcBlock(ptr: nat, accs: array<nat>)
      requires Fits() && ptr < |chain| && accs.Length == nlevels
      requires accs != tof && accs != lss && accs != table
      requires forall j :: 0 <= j < nlevels ==> Level(j, ptr, accs[j])
      modifies table, accs
      ensures forall j :: 0 <= j < nlevels ==> Level(j, ptr + 1, accs[j])
    {
      hide LevelAt, Pow, Geo;
      var size := chain[ptr].size;
      var j := 0;
      while j < nlevels
        invariant 0 <= j <= nlevels
        invariant forall k :: 0 <= k < j ==> Level(k, ptr + 1, accs[k])
        invariant forall k :: j <= k < nlevels ==> Level(k, ptr, accs[k])
      {
        ghost var before, old_ := table[..], accs[..];
        SlotsExist(j, ptr);
        SlotsExist(j, ptr + 1);
        var at := tof[j] + ptr / lss[j];
        assert Level(j, ptr, accs[j]);
        LevelStep(before, Geo(elementsPerLevel, j), Span(j), chain, ptr, accs[j]);
        accs[j] := accs[j] + size;
        if ptr % lss[j] == lss[j] - 1 {
          table[at] := accs[j];
          accs[j] := 0;
          assert table[..] == before[at := old_[j] + size];
          forall k | 0 <= k < nlevels && k != j
            ensures Level(k, if k < j then ptr + 1 else ptr, accs[k])
          {
            OtherLevel(j, k, before, at, old_[j] + size, if k < j then ptr + 1 else ptr, old_[k]);
          }
        } else {
          assert table[..] == before;
          forall k | 0 <= k < nlevels && k != j
            ensures Level(k, if k < j then ptr + 1 else ptr, accs[k])
          {
            assert accs[k] == old_[k];
          }
        }
        j := j + 1;
      }
    }

    /** Reads all block sizes in batches of readPerCalc and fills the table; an empty tree is left as it is. */
    method TreeRecalc()
      requires Fits()
      modifies table
      ensures chain != [] ==> Summed()
      ensures chain == [] ==> table[..] == old(table[..])
    {
      hide LevelAt, LevelDone, Pow, Geo;
      if blocksCount == 0 { return; }
      var accs := new nat[nlevels](_ => 0);
      var left: nat, ptr: nat := blocksCount, 0;
      forall j | 0 <= j < nlevels ensures Level(j, 0, accs[j]) {
        SlotsExist(j, 0);
        LevelStart(table[..], Geo(elementsPerLevel, j), Span(j));
      }
      while left > 0
        invariant ptr + left == |chain|
        invariant forall j :: 0 <= j < nlevels ==> Level(j, ptr, accs[j])
      {
        var batch := if left > readPerCalc then readPerCalc else left;
        var i := 0;
        while i < batch
          invariant i <= batch <= left && ptr + left == |chain| + i
          invariant forall j :: 0 <= j < nlevels ==> Level(j, ptr, accs[j])
        {
          RecalcBlock(ptr, accs);
          i, ptr := i + 1, ptr + 1;
        }
        left := left - batch;
      }
      Flush(accs);
    }

    lemma LevelStart(tab: seq<nat>, base: nat, span: nat)
      requires span > 0 && base < |tab|
      ensures 0 / span == 0 && LevelAt(tab, base, span, chain, 0, 0)
    {
      ModUnique(0, span, 0, 0);
    }

    /** Writes the unfinished last node of every level. */
    method Flush(accs: array<nat>)
      requires Fits() && accs.Length == nlevels
      requires accs != tof && accs != lss && accs != table
      requires forall j :: 0 <= j < nlevels ==> Level(j, |chain|, accs[j])
      modifies table
      ensures Summed()
    {
      hide LevelAt, LevelDone, Pow, Geo;
      var j := 0;
      while j < nlevels
        invariant 0 <= j <= nlevels
        invariant forall k :: 0 <= k < j ==> LevelDone(table[..], Geo(elementsPerLevel, k), Span(k), chain)
        invariant forall k :: j <= k < nlevels ==> Level(k, |chain|, accs[k])
      {
        ghost var before := table[..];
        SlotsExist(j, |chain|);
        var at := tof[j] + blocksCount / lss[j];
        assert Level(j, |chain|, accs[j]);
        LevelFlush(before, Geo(elementsPerLevel, j), Span(j), chain, accs[j]);
        table[at] := accs[j];
        assert table[..] == before[at := accs[j]];
        forall k | 0 <= k < j ensures LevelDone(table[..], Geo(elementsPerLevel, k), Span(k), chain) {
          OtherDone(j, k, before, at, accs[j], chain);
        }
        forall k | j < k < nlevels ensures Level(k, |chain|, accs[k]) {
          assert Level(k, |chain|, accs[k]) by { OtherLevel(j, k, before, at, accs[j], |chain|, accs[k]); }
        }
        j := j + 1;
      }
    }

    /** Sum of all block sizes: the root node. Without blocks it is whatever the table holds. */
    method TreeSize() returns (size: nat)
      requires Valid()
      ensures chain != [] ==> size == Prefix(chain, |chain|)
      ensures table.Length > 0 && size == table[0]
    {
      if chain == [] { OneLevel(); } else { RootIsTotal(); }
      size := table[0];
    }

    lemma RootIsTotal()
      requires Filled()
      ensures table.Length > 0 && table[0] == Prefix(chain, |chain|)
    {
      hide Pow;
      SlotsExist(0, 0);
      assert LevelDone(table[..], Geo(elementsPerLevel, 0), Span(0), chain);
      assert table[..][Geo(elementsPerLevel, 0) + 0] == Node(chain, Span(0), 0);
    }

    // ---- search ----

    /** The node under `at` starts before the offset, so it was written. */
    lemma NodeWritten(j: nat, at: nat, offset: nat)
      requires Filled() && j < nlevels && Upto(chain, at * Span(j)) <= offset < Prefix(chain, |chain|)
      ensures at * Span(j) < |chain|
      ensures Geo(elementsPerLevel, j) + at < table.Length
      ensures table[Geo(elementsPerLevel, j) + at] == Node(chain, Span(j), at)
      ensures Upto(chain, at * Span(j)) <= Upto(chain, at * Span(j) + Span(j))
    {
      hide Pow, Geo;
      NodeStarts(|chain|, Span(j), at);
      SlotsExist(j, |chain|);
      assert LevelDone(table[..], Geo(elementsPerLevel, j), Span(j), chain);
      assert table[..][Geo(elementsPerLevel, j) + at] == Node(chain, Span(j), at);
      PrefixMonotone(chain, Min(at * Span(j), |chain|), Min(at * Span(j) + Span(j), |chain|));
    }

    /** Scans the children of one node for the one that contains the offset. */
    method ScanLevel(i: nat, base: nat, levelOff0: nat, offset: nat) returns (ptr: nat, levelOff: nat)
      requires Filled() && 1 <= i < nlevels
      requires levelOff0 == Upto(chain, base * Span(i)) <= offset
      requires offset < Upto(chain, (base + elementsPerLevel) * Span(i)) && offset < Prefix(chain, |chain|)
      ensures levelOff == Upto(chain, ptr * Span(i)) <= offset < Upto(chain, ptr * Span(i) + Span(i))
    {
      hide Pow, Geo, Node, Upto, Summed;
      ptr, levelOff := base, levelOff0;
      var j := 0;
      while j < elementsPerLevel
        invariant j <= elementsPerLevel && ptr == base + j
        invariant levelOff == Upto(chain, ptr * Span(i)) <= offset
      {
        NodeWritten(i, ptr, offset);
        NodeEnd(i, ptr);
        var chunk := table[tof[i] + ptr];
        if offset < levelOff + chunk { return; }
        levelOff := levelOff + chunk;
        assert (ptr + 1) * Span(i) == ptr * Span(i) + Span(i);
        j, ptr := j + 1, ptr + 1;
      }
    }

    lemma NodeEnd(j: nat, at: nat)
      requires Configured() && j <= nlevels
      ensures Upto(chain, at * Span(j)) + Node(chain, Span(j), at) == Upto(chain, at * Span(j) + Span(j))
    {
    }

    lemma SpanStep(i: nat, ptr: nat)
      requires Configured() && i < nlevels
      ensures ptr * elementsPerLevel * Span(i + 1) == ptr * Span(i)
      ensures (ptr * elementsPerLevel + elementsPerLevel) * Span(i + 1) == ptr * Span(i) + Span(i)
    {
      var b, t := elementsPerLevel, Span(i + 1);
      assert Span(i) == b * t;
      MulAssoc(ptr, b, t);
      assert (ptr * b + b) * t == ptr * b * t + b * t;
    }

    /** Finds the block that contains a virtual offset, descending the levels and then reading blocks.
        Without blocks nothing is found, even if the root is stale. */
    method TreeGet(offset: nat) returns (found: Place)
      requires Valid()
      ensures found == LinearFind(chain, offset, 0)
    {
      hide Pow, Geo, Summed, LevelDone;
      if chain == [] { OneLevel(); } else { RootIsTotal(); }
      if offset >= table[0] {
        if chain != [] { LinearFindNowhere(chain, offset, 0); }
        return Nowhere;
      }
      found := Nowhere;
      var levelOff: nat, ptr: nat, i: nat := 0, 0, 1;
      if chain != [] { RootSpan(); }
      while i < nlevels
        invariant 1 <= i <= nlevels
        invariant chain == [] ==> nlevels == 1
        invariant chain != [] ==>
          levelOff == Upto(chain, ptr * Span(i)) <= offset < Upto(chain, (ptr + elementsPerLevel) * Span(i))
      {
        ptr, levelOff := ScanLevel(i, ptr, levelOff, offset);
        SpanStep(i, ptr);
        ptr := ptr * elementsPerLevel;
        i := i + 1;
      }
      BlockSpan();
      found := ScanBlocks(ptr, levelOff, offset);
    }

    lemma RootSpan()
      requires Filled()
      ensures Upto(chain, 0 * Span(1)) == 0
      ensures Upto(chain, (0 + elementsPerLevel) * Span(1)) == Prefix(chain, |chain|)
    {
      assert Span(0) == elementsPerLevel * Span(1);
    }

    lemma BlockSpan()
      requires Configured()
      ensures Span(nlevels) == 1
    {
    }

    /** The last step of a search: reads up to elementsPerLevel blocks. */
    method ScanBlocks(base: nat, levelOff0: nat, offset: nat) returns (found: Place)
      requires Valid()
      requires chain != [] ==> levelOff0 == Upto(chain, base) <= offset < Upto(chain, base + elementsPerLevel)
      requires chain != [] ==> offset < Prefix(chain, |chain|)
      ensures found == LinearFind(chain, offset, 0)
    {
      hide Pow, Geo, Summed;
      var j, ptr, levelOff := 0, base, levelOff0;
      while j < elementsPerLevel
        invariant j <= elementsPerLevel && ptr == base + j
        invariant chain != [] ==> levelOff == Upto(chain, ptr) <= offset
      {
        if ptr >= |chain| { break; }  // reading behind the last block fails
        if offset < levelOff + chain[ptr].size {
          LinearFindUnique(chain, offset, 0, ptr);
          return At(ptr, chain[ptr].realOff + (offset - levelOff));
        }
        levelOff := levelOff + chain[ptr].size;
        j, ptr := j + 1, ptr + 1;
      }
      return Nowhere;
    }

    // ---- building and changing ----

    constructor (blocks: seq<BlockInfo>, elementsPerLevel: nat, readPerCalc: nat)
      requires elementsPerLevel > 1 && readPerCalc >= 1
      ensures Fits() && chain == blocks && fresh(tof) && fresh(lss) && fresh(table)
      ensures Valid()
    {
      this.elementsPerLevel, this.readPerCalc := elementsPerLevel, readPerCalc;
      chain, blocksCount, nlevels := blocks, 0, 0;
      tof, lss, table := new nat[0], new nat[0], new nat[0];
      new;
      TreeReinit();
      TreeRecalc();
    }

    /** Adapts the number of levels to the number of blocks; the arrays are replaced only if it changed. */
    method TreeReinit()
      requires Configured() && (nlevels > 0 ==> Shaped())
      modifies this`blocksCount, this`nlevels, this`tof, this`lss, this`table
      ensures Fits()
      ensures if nlevels == old(nlevels) then tof == old(tof) && lss == old(lss) && table == old(table)
              else fresh(tof) && fresh(lss) && fresh(table)
    {
      hide Pow, Geo;
      blocksCount := |chain|;
      var levels := LogAny(blocksCount, elementsPerLevel);
      if levels == nlevels { return; }
      var newTof, newLss, size := LevelArrays(levels);
      table := new nat[size];
      nlevels, lss, tof := levels, newLss, newTof;
    }

    /** Level offsets, spans, and the table size for a number of levels. */
    method LevelArrays(levels: nat) returns (newTof: array<nat>, newLss: array<nat>, size: nat)
      requires Configured() && levels >= 1
      ensures fresh(newTof) && fresh(newLss) && newTof != newLss && newTof.Length == newLss.Length == levels
      ensures forall j :: 0 <= j < levels ==> newTof[j] == Geo(elementsPerLevel, j)
      ensures forall j :: 0 <= j < levels ==> newLss[j] == Pow(elementsPerLevel, levels - j)
      ensures size == Geo(elementsPerLevel, levels)
    {
      hide Geo, Pow;
      newLss := new nat[levels];
      newTof := new nat[levels];
      newTof[0] := 0;
      var ls: nat, i: nat := 1, 1;
      size := 0;
      FirstLevel();
      while i <= levels
        invariant 1 <= i <= levels + 1
        invariant size == Geo(elementsPerLevel, i - 1) && ls == Pow(elementsPerLevel, i - 1)
        invariant forall j :: 0 <= j < i && j < levels ==> newTof[j] == Geo(elementsPerLevel, j)
        invariant forall j :: levels - i < j < levels ==> newLss[j] == Pow(elementsPerLevel, levels - j)
      {
        NextLevel(i);
        if i != levels { newTof[i] := newTof[i-1] + ls; }
        size := size + ls;
        ls := ls * elementsPerLevel;
        newLss[levels - i] := ls;
        i := i + 1;
      }
    }

    lemma FirstLevel()
      ensures Geo(elementsPerLevel, 0) == 0 && Pow(elementsPerLevel, 0) == 1
    {
    }

    lemma NextLevel(i: nat)
      requires i >= 1
      ensures Geo(elementsPerLevel, i) == Geo(elementsPerLevel, i - 1) + Pow(elementsPerLevel, i - 1)
      ensures Pow(elementsPerLevel, i) == Pow(elementsPerLevel, i - 1) * elementsPerLevel
    {
    }

    /** Inserts a block at position `vid`. Behind the end, `behind` is what the store holds in front of the new
        block after it was asked to move what is not there and to write across the gap. */
    method TreeInsert(vid: nat, off: nat, size: nat, behind: seq<BlockInfo>)
      requires Fits() && (vid > |chain| ==> |behind| == vid)
      modifies this, table
      ensures chain == if vid <= |old(chain)| then old(chain)[..vid] + [BlockInfo(off, size)] + old(chain)[vid..]
                       else behind + [BlockInfo(off, size)]
      ensures Filled()
    {
      chain := if vid <= |chain| then chain[..vid] + [BlockInfo(off, size)] + chain[vid..]
               else behind + [BlockInfo(off, size)];
      TreeReinit();
      TreeRecalc();
    }

    /** Removes block `vid`. When it was the last one the table keeps its old contents; the root of a tree that was
        right is then still right only if that block was empty. Behind the end, the store is asked to move what is not
        there: it is left with `behind`, and may have `refused`. */
    method TreeDelete(vid: nat, behind: seq<BlockInfo>, refused: bool) returns (ok: bool)
      requires Fits()
      modifies this, table
      ensures ok <==> vid < |old(chain)| || !refused
      ensures chain == if vid < |old(chain)| then old(chain)[..vid] + old(chain)[vid + 1..] else behind
      ensures ok ==> Valid() && table.Length > 0
      ensures !ok || (chain == [] && |old(chain)| <= 1) ==> table == old(table) && table[..] == old(table[..])
      ensures old(Summed()) && vid < |old(chain)| ==>
        (table[0] == Prefix(chain, |chain|) <==> chain != [] || old(chain)[vid].size == 0)
    {
      if |chain| <= 1 { OneLevel(); }
      if |chain| == 1 {
        if Summed() { RootIsTotal(); }
        assert Prefix(chain, 1) == chain[0].size;
      }
      if vid >= |chain| && refused {
        chain := behind;
        return false;
      }
      ok := true;
      chain := if vid < |chain| then chain[..vid] + chain[vid + 1..] else behind;
      TreeReinit();
      TreeRecalc();
      if chain == [] { OneLevel(); } else { RootIsTotal(); }
    }

    /** Sizes are 32-bit, and so is the number of blocks. */
    ghost predicate Sized()
      reads this
    {
      |chain| < WORD32 && forall k :: 0 <= k < |chain| ==> chain[k].size < WORD32
    }

    lemma TotalFits()
      requires Sized()
      ensures Prefix(chain, |chain|) < WORD64
    {
      PrefixBound(chain, |chain|, WORD32);
      MulLe(|chain|, WORD32 - 1, WORD32);
    }

    /** Changes the size of block `vid` and adds the 32-bit difference to one node of every level.
        A correct table is again what a full recalculation would give exactly when the block did not shrink;
        after shrinking, the difference has wrapped and the root is 2^32 too large. */
    method TreeResizeBlock(vid: nat, newSize: nat) returns (ok: bool)
      requires Fits() && Sized() && newSize < WORD32
      modifies this`chain, table
      ensures ok <==> vid < |old(chain)|
      ensures !ok ==> chain == old(chain) && table[..] == old(table[..])
      ensures ok ==> chain == old(chain)[vid := old(chain)[vid].(size := newSize)] && Sized() && Fits()
      ensures ok ==> table.Length > 0
      ensures ok ==> table[0] == (old(table[0]) + (newSize - old(chain)[vid].size) % WORD32) % WORD64
      ensures ok && old(Summed()) ==> (Summed() <==> newSize >= old(chain)[vid].size)
      ensures ok && old(Summed()) && newSize < old(chain)[vid].size ==>
        table[0] == (Prefix(chain, |chain|) + WORD32) % WORD64
    {
      hide Pow, Geo, LevelDone, Node;
      if vid >= |chain| { return false; }
      ghost var old_, tab0 := chain, table[..];
      ghost var grows := newSize >= chain[vid].size;
      var delta := (newSize - chain[vid].size) % WORD32;
      if grows { ModSmall(newSize - chain[vid].size, WORD32); }
      assert delta == newSize - chain[vid].size + if grows then 0 else WORD32;
      SlotsExist(0, 0);
      ghost var summed := Summed();
      if summed { RootIsTotal(); }
      PrefixUpdate(chain, vid, newSize, |chain|);
      chain := chain[vid := chain[vid].(size := newSize)];
      TotalFits();
      ShiftTable(vid, delta, old_);
      if summed && !grows { RootWrong(); }
      ok := true;
    }

    /** Levels before `j` describe the current blocks, the others still describe `before`. */
    ghost predicate Shifting(tab: seq<nat>, j: nat, before: seq<BlockInfo>)
      reads this
      requires Configured()
    {
      && (forall k :: 0 <= k < j && k < nlevels ==> LevelDone(tab, Geo(elementsPerLevel, k), Span(k), chain))
      && (forall k :: j <= k < nlevels ==> LevelDone(tab, Geo(elementsPerLevel, k), Span(k), before))
    }

    lemma ShiftOne(tab: seq<nat>, j: nat, at: nat, vid: nat, delta: nat, before: seq<BlockInfo>)
      requires Fits() && j < nlevels && vid < |chain| && |before| == |chain| && |tab| == table.Length
      requires chain == before[vid := before[vid].(size := chain[vid].size)]
      requires delta == chain[vid].size - before[vid].size && Prefix(chain, |chain|) < WORD64
      requires Shifting(tab, j, before) && at == Geo(elementsPerLevel, j) + vid / Span(j) && at < |tab|
      ensures Shifting(tab[at := (tab[at] + delta) % WORD64], j + 1, before)
    {
      hide Pow, Geo, LevelDone, Node;
      SlotsExist(j, vid);
      LevelShift(tab, Geo(elementsPerLevel, j), Span(j), before, vid, chain[vid].size);
      ModSmall(tab[at] + delta, WORD64);
      forall k | 0 <= k < nlevels && k != j
        ensures LevelDone(tab[at := tab[at] + delta], Geo(elementsPerLevel, k), Span(k),
                          if k < j then chain else before)
      {
        OtherDone(j, k, tab, at, tab[at] + delta, if k < j then chain else before);
      }
    }

    /** Adds `delta` to the node over `vid` on every level. */
    method ShiftTable(vid: nat, delta: nat, ghost before: seq<BlockInfo>)
      requires Fits() && vid < |chain| && |before| == |chain|
      requires chain == before[vid := before[vid].(size := chain[vid].size)]
      requires Prefix(chain, |chain|) < WORD64
      modifies table
      ensures table.Length > 0 && table[0] == (old(table[0]) + delta) % WORD64
      ensures old(Shifting(table[..], 0, before)) && delta == chain[vid].size - before[vid].size ==> Summed()
    {
      hide Pow, Geo, Shifting, LevelDone;
      ghost var tab0 := table[..];
      ghost var grows := delta == chain[vid].size - before[vid].size && Shifting(tab0, 0, before);
      GeoStart();
      SlotsExist(0, 0);
      var j := 0;
      while j < nlevels
        invariant 0 <= j <= nlevels
        invariant grows ==> Shifting(table[..], j, before)
        invariant table[0] == if j == 0 then tab0[0] else (tab0[0] + delta) % WORD64
      {
        ghost var tab := table[..];
        SlotsExist(j, vid);
        RootSlot(j, vid);
        var at := tof[j] + vid / lss[j];
        if grows { ShiftOne(tab, j, at, vid, delta, before); }
        table[at] := (table[at] + delta) % WORD64;
        assert table[..] == tab[at := (tab[at] + delta) % WORD64];
        j := j + 1;
      }
      ShiftingDone(before);
    }

    lemma ShiftingDone(before: seq<BlockInfo>)
      requires Fits()
      ensures Shifting(table[..], nlevels, before) ==> Summed()
    {
    }

    lemma GeoStart()
      ensures Geo(elementsPerLevel, 0) == 0 && Geo(elementsPerLevel, 1) == 1
    {
    }

    /** Only level 0 uses the first slot, and it has no other. */
    lemma RootSlot(j: nat, vid: nat)
      requires Fits() && j < nlevels && vid < |chain|
      ensures Geo(elementsPerLevel, j) + vid / Span(j) == 0 <==> j == 0
    {
      hide Pow, Geo;
      GeoStart();
      SlotsExist(j, vid);
      if j > 0 {
        GeoMonotone(elementsPerLevel, 1, j);
      } else {
        assert Geo(elementsPerLevel, 0 + 1) == 1;
      }
    }

    lemma OtherDone(j: nat, k: nat, before: seq<nat>, at: nat, x: nat, bs: seq<BlockInfo>)
      requires Fits() && j < nlevels && k < nlevels && j != k && |bs| == |chain|
      requires Geo(elementsPerLevel, j) <= at < Geo(elementsPerLevel, j + 1)
      requires at < |before| && |before| == table.Length
      requires LevelDone(before, Geo(elementsPerLevel, k), Span(k), bs)
      ensures LevelDone(before[at := x], Geo(elementsPerLevel, k), Span(k), bs)
    {
      hide Pow, Geo;
      SlotsExist(k, |chain|);
      if k < j { GeoMonotone(elementsPerLevel, k + 1, j); } else { GeoMonotone(elementsPerLevel, j + 1, k); }
    }

    lemma RootWrong()
      requires Fits() && chain != [] && table.Length > 0 && table[0] != Prefix(chain, |chain|)
      ensures !Summed()
    {
      if Summed() { RootIsTotal(); }
    }
  }

  /** A tree whose only block has been deleted still claims that block's five bytes. */
  method StaleRoot() returns (t: Tree)
    ensures fresh(t) && t.Valid() && t.chain == [] && t.table.Length > 0
    ensures t.table[0] == 5 && Prefix(t.chain, |t.chain|) == 0
  {
    t := new Tree([BlockInfo(0, 5)], 2, 1);
    t.RootIsTotal();
    assert Prefix(t.chain, 1) == 5;
    var ok := t.TreeDelete(0, [], false);
  }
}
