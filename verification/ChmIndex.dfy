/** The CHM perfect-hash index: an edge per key, a value `g` per vertex, and the sum of the two
    ends of a key's edge is the key's value. */
module ChmIndex {
  import opened Arithmetic
  import opened Common
  import opened Forest
  import opened Relabelling
  import opened ByteCodec

  type Key = bv64

  const WORD: nat := 0x1_0000_0000_0000_0000  // 2^64
  const CHM_CONST: nat := 209
  const REBUILD_CONST: nat := 80

  /** Outcomes of the index operations; BadF is the "graph is broken" code. */
  datatype Status = Ok | BadF | NoEntry | ReadOnly | TooMany | Inconsistent

  /** The vertex a key hashes to. */
  function VertexOf(key: Key, hash: bv64, nvertex: nat): (r: nat)
    requires nvertex > 0
    ensures r < nvertex
  {
    ((key ^ hash) as nat) % nvertex
  }

  /** Without a seed the vertex is the key itself, cut to the number of vertices. */
  lemma VertexOfUnseeded(key: Key, nvertex: nat)
    requires nvertex > 0
    ensures VertexOf(key, 0, nvertex) == key as nat % nvertex
  {
    assert key ^ 0 == key;
  }

  /** Only the bits in which key and seed differ count. */
  lemma VertexOfShift(key: Key, hash: bv64, d: bv64, nvertex: nat)
    requires nvertex > 0
    ensures VertexOf(key ^ d, hash ^ d, nvertex) == VertexOf(key, hash, nvertex)
  {
    assert (key ^ d) ^ (hash ^ d) == key ^ hash;
  }

  /** For every key there are seeds that give it two different vertices. */
  lemma SeedsForKey(key: Key, nvertex: nat)
    requires nvertex >= 2
    ensures VertexOf(key, key, nvertex) == 0 && VertexOf(key, key ^ 1, nvertex) == 1
  {
    assert key ^ key == 0 && key ^ (key ^ 1) == 1;
    assert (0 as bv64) as nat == 0 && (1 as bv64) as nat == 1;
  }

  /** Subtraction of machine words. */
  function Sub(x: nat, y: nat): (r: nat)
    ensures r < WORD
  {
    (x - y) % WORD
  }

  /** BITS_TO_BYTES */
  function BytesFor(bits: nat): (r: nat)
    requires bits >= 1
    ensures r >= 1 && 8 * (r - 1) < bits <= 8 * r
  {
    (bits - 1) / 8 + 1
  }

  /** safe_mul: it refuses already when the quotient equals the factor. */
  function SafeMul(x: nat, y: nat): (r: Option<nat>)
    ensures r.Some? <==> x == 0 || y == 0 || x * (y + 1) < WORD
    ensures r.Some? ==> r.value == x * y && r.value < WORD
  {
    if x == 0 || y == 0 then Some(0)
    else
      SafeMulBound(x, y);
      if (WORD - 1) / x <= y then None else Some(x * y)
  }

  lemma SafeMulBound(x: nat, y: nat)
    requires x > 0
    ensures (WORD - 1) / x > y <==> x * (y + 1) < WORD
    ensures x * (y + 1) < WORD ==> x * y < WORD
  {
    var q := (WORD - 1) / x;
    assert WORD - 1 == q * x + (WORD - 1) % x;
    assert (q + 1) * x == q * x + x && x * (y + 1) == x * y + x == (y + 1) * x;
    if q > y { MulLe(y + 1, q, x); } else { MulLe(q + 1, y + 1, x); }
  }

  /** 2.09 vertices per element; for huge counts the source divides first. None: too many. */
  function VertexTarget(wanted: nat): (nv: Option<nat>)
    ensures nv.Some? ==> nv.value >= 2
  {
    var cap := if wanted == 0 then 1 else wanted;
    match SafeMul(cap, CHM_CONST)
    case Some(n) => Some(n / 100)
    case None =>
      HugeCapacity(cap);
      match SafeMul(cap / 100, CHM_CONST)
      case Some(n) => Some(n / 100)
      case None => None
  }

  lemma HugeCapacity(cap: nat)
    requires cap > 0 && SafeMul(cap, CHM_CONST) == None
    ensures cap >= 1000
  {
  }

  /** The number of vertices is 2.09 times the number of elements, rounded down. */
  lemma TargetRatio(w: nat)
    requires w >= 1 && w * 210 < WORD
    ensures VertexTarget(w).Some?
    ensures var nv := VertexTarget(w).value; 2 * w <= nv && 100 * nv <= 209 * w < 100 * nv + 100
  {
  }

  /** Where the product is refused, dividing twice leaves fewer than one vertex for every 47 elements: an index built
      for so many can never hold them. Elsewhere there are at least two vertices for each. */
  lemma TargetIsRoomy(w: nat)
    requires w >= 1 && VertexTarget(w).Some?
    ensures var nv := VertexTarget(w).value;
      if w * 210 < WORD then 2 * w <= nv else 47 * nv < w
  {
    if w * 210 < WORD { TargetRatio(w); }
  }

  /** Number of elements the next build is sized for, after one of `capacity` that took `nelements`. */
  function Wanted(capacity: nat, nelements: nat, nelementsMin: nat, nelementsStep: nat, nelementsMul: nat): nat {
    var full := match SafeMul(capacity / 100, REBUILD_CONST) case Some(n) => n case None => capacity;
    if nelements >= full then
      var atLeast := if capacity > nelementsMin then capacity else nelementsMin;
      var base := if atLeast > nelements then atLeast else nelements;
      ((base + nelementsStep) % WORD * nelementsMul) % WORD
    else capacity
  }

  /** An index that is not four fifths full is rebuilt with the size it had. */
  lemma OrdinaryPlan(capacity: nat, nelements: nat, nelementsMin: nat, nelementsStep: nat, nelementsMul: nat)
    requires capacity < WORD && nelements < capacity / 100 * 80
    ensures Wanted(capacity, nelements, nelementsMin, nelementsStep, nelementsMul) == capacity
  {
  }

  /** Otherwise it grows: one step beyond the largest of its old size, its elements and the minimum, times the
      multiplier. Unless that leaves the machine word, or the multiplier is 0, nothing gets lost. */
  lemma GrowthPlan(capacity: nat, nelements: nat, nelementsMin: nat, nelementsStep: nat, nelementsMul: nat, base: nat)
    requires capacity < WORD && nelements >= capacity / 100 * 80
    requires base in {capacity, nelements, nelementsMin}
    requires base >= capacity && base >= nelements && base >= nelementsMin
    requires base + nelementsStep < WORD && (base + nelementsStep) * nelementsMul < WORD
    ensures var wanted := Wanted(capacity, nelements, nelementsMin, nelementsStep, nelementsMul);
      && wanted == (base + nelementsStep) * nelementsMul
      && (nelementsMul > 0 ==> wanted >= capacity && wanted >= nelements && wanted >= nelementsMin)
  {
    var t := base + nelementsStep;
    assert Wanted(capacity, nelements, nelementsMin, nelementsStep, nelementsMul) == (t % WORD * nelementsMul) % WORD;
    hide Wanted, SafeMul;
    NoWrap(t, nelementsMul, WORD);
  }

  lemma NoWrap(t: nat, k: nat, m: nat)
    requires t < m && t * k < m
    ensures (t % m * k) % m == t * k
    ensures k > 0 ==> t * k >= t
  {
    ModSmall(t, m);
    ModSmall(t * k, m);
    if k > 0 { MulAtLeast(k, t); }
  }

  /** A vertex number still fits seven bytes, so that record fields can be masked in a machine word. */
  predicate Buildable(wanted: nat) {
    VertexTarget(wanted).Some? && VertexTarget(wanted).value < Pow(2, 56)
  }

  /** The bytes of a vertex number's bits are the least number of bytes it fits. */
  lemma VertexBytes(nvertex: nat, bits: nat)
    requires bits >= 1 && Pow(2, bits - 1) <= nvertex < Pow(2, bits)
    ensures var bt := BytesFor(bits);
      && Pow(256, bt - 1) <= nvertex < Pow(256, bt)
      && (bt >= 8 <==> nvertex >= Pow(2, 56))
  {
    var bt := BytesFor(bits);
    hide Pow;
    PowMonotone(2, bits, 8 * bt);
    BitsOfBytes(bt);
    PowMonotone(2, 8 * (bt - 1), bits - 1);
    BitsOfBytes(bt - 1);
    if bt >= 8 { PowMonotone(2, 56, bits - 1); } else { PowMonotone(2, bits, 56); }
  }

  ghost predicate PairAt(es: seq<Edge>, k: nat, v0: nat, v1: nat) {
    1 <= k <= |es| && es[k-1].v0 == v0 && es[k-1].v1 == v1
  }

  /** No record between a list position and the next one joins the pair. */
  lemma NoPairAhead(es: seq<Edge>, n: nat, v0: nat, v1: nat)
    requires n <= |es|
    ensures forall k :: Last(es, n, v0) < k <= n ==> !PairAt(es, k, v0, v1)
  {
    forall k | Last(es, n, v0) < k <= n ensures !PairAt(es, k, v0, v1) { assert !Incident(es, k, v0); }
  }

  /** The edges of the keys under a pair of hash seeds. */
  ghost function KeyEdges(keys: seq<Key>, hash1: bv64, hash2: bv64, nvertex: nat): (es: seq<Edge>)
    requires nvertex > 0
    ensures |es| == |keys|
  {
    seq(|keys|, i requires 0 <= i < |keys| =>
      Edge(VertexOf(keys[i], hash1, nvertex), VertexOf(keys[i], hash2, nvertex), 0, 0))
  }

  /** The keys before `i` already connect the vertices of key `i`, or these coincide. */
  ghost predicate ClashAt(keys: seq<Key>, hash1: bv64, hash2: bv64, nvertex: nat, i: nat)
    requires nvertex > 0 && i < |keys|
  {
    var es := KeyEdges(keys, hash1, hash2, nvertex);
    Linked(es, i, {}, es[i].v0, es[i].v1)
  }

  /** The first key, from `i` on, that cannot be inserted; |keys| if there is none. */
  ghost function FirstClash(keys: seq<Key>, hash1: bv64, hash2: bv64, nvertex: nat, i: nat): (r: nat)
    requires nvertex > 0 && i <= |keys|
    ensures i <= r <= |keys|
    decreases |keys| - i
  {
    if i == |keys| || ClashAt(keys, hash1, hash2, nvertex, i) then i
    else FirstClash(keys, hash1, hash2, nvertex, i + 1)
  }

  /** The second of two equal keys cannot be inserted. */
  lemma RepeatClashes(keys: seq<Key>, hash1: bv64, hash2: bv64, nvertex: nat, i: nat, j: nat)
    requires nvertex > 0 && i < j < |keys| && keys[i] == keys[j]
    ensures FirstClash(keys, hash1, hash2, nvertex, 0) <= j
  {
    EdgeLinks(KeyEdges(keys, hash1, hash2, nvertex), j, {}, i + 1);
    assert ClashAt(keys, hash1, hash2, nvertex, j);
    ClashFound(keys, hash1, hash2, nvertex, 0, j);
  }

  lemma {:induction false} ClashFound(keys: seq<Key>, hash1: bv64, hash2: bv64, nvertex: nat, from: nat, j: nat)
    requires nvertex > 0 && from <= j < |keys| && ClashAt(keys, hash1, hash2, nvertex, j)
    ensures FirstClash(keys, hash1, hash2, nvertex, from) <= j
    decreases j - from
  {
    hide ClashAt;
    if from < j { ClashFound(keys, hash1, hash2, nvertex, from + 1, j); }
  }

  /** All keys can be inserted exactly when their edges form a forest. */
  lemma NoClashIffForest(keys: seq<Key>, hash1: bv64, hash2: bv64, nvertex: nat)
    requires nvertex > 0
    ensures FirstClash(keys, hash1, hash2, nvertex, 0) == |keys| <==> IsForest(KeyEdges(keys, hash1, hash2, nvertex))
  {
    ForestFrom(keys, hash1, hash2, nvertex, 0);
  }

  lemma {:induction false} ForestFrom(keys: seq<Key>, hash1: bv64, hash2: bv64, nvertex: nat, i: nat)
    requires nvertex > 0 && i <= |keys| && IsForest(KeyEdges(keys, hash1, hash2, nvertex)[..i])
    ensures FirstClash(keys, hash1, hash2, nvertex, i) == |keys| <==> IsForest(KeyEdges(keys, hash1, hash2, nvertex))
    decreases |keys| - i
  {
    hide IsForest, Linked, KeyEdges;
    var es := KeyEdges(keys, hash1, hash2, nvertex);
    if i == |keys| {
      assert es[..i] == es;
    } else {
      assert es[..i + 1] == es[..i] + [es[i]];
      ForestExtends(es[..i], es[i]);
      PrefixLinked(es, es[..i], i, es[i].v0, es[i].v1);
      if ClashAt(keys, hash1, hash2, nvertex, i) {
        if IsForest(es) { ForestHead(es, i + 1); }
      } else {
        ForestFrom(keys, hash1, hash2, nvertex, i + 1);
      }
    }
  }

  /** A single key clashes only with itself, if its two vertices coincide. */
  lemma LoneKey(key: Key, hash1: bv64, hash2: bv64, nvertex: nat)
    requires nvertex > 0
    ensures FirstClash([key], hash1, hash2, nvertex, 0) ==
      if VertexOf(key, hash1, nvertex) == VertexOf(key, hash2, nvertex) then 0 else 1
  {
    hide VertexOf;
    var es := KeyEdges([key], hash1, hash2, nvertex);
    assert Rep(es, 0, {}, es[0].v0) == es[0].v0 && Rep(es, 0, {}, es[0].v1) == es[0].v1;
    assert FirstClash([key], hash1, hash2, nvertex, 1) == 1;
  }

  lemma PrefixLinked(es: seq<Edge>, fs: seq<Edge>, n: nat, x: nat, y: nat)
    requires n <= |es| && n <= |fs| && forall k :: 0 <= k < n ==> es[k].v0 == fs[k].v0 && es[k].v1 == fs[k].v1
    ensures Linked(es, n, {}, x, y) <==> Linked(fs, n, {}, x, y)
  {
    RepPrefix(es, fs, n, {}, x);
    RepPrefix(es, fs, n, {}, y);
  }

  /** The first edges of a forest form a forest. */
  lemma ForestHead(es: seq<Edge>, n: nat)
    requires IsForest(es) && n <= |es|
    ensures IsForest(es[..n])
  {
    var fs := es[..n];
    forall k | 1 <= k <= n ensures IsBridge(fs, k) {
      assert IsBridge(es, k);
      var x, y := es[k-1].v0, es[k-1].v1;
      RepPrefix(es, fs, n, {k}, x);
      RepPrefix(es, fs, n, {k}, y);
      if Linked(fs, n, {k}, x, y) { LinkedLater(es, n, |es|, {k}, x, y); }
    }
  }

  class Index {
    // configuration
    const writeable: bool
    const nelementsMin: nat
    const nelementsStep: nat
    const nelementsMul: nat
    const biValue: nat
    const btValue: nat

    // params record
    var capacity: nat
    var nelements: nat
    var hash1: bv64
    var hash2: bv64

    // derived sizes
    var nvertex: nat
    var btVertex: nat

    // stores
    var g: array<nat>     // btValue bytes per vertex
    var v: array<nat>     // newest edge id per vertex, btVertex bytes
    var e: seq<Byte>      // edge records

    // what the stores stand for
    ghost var es: seq<Edge>
    ghost var keys: seq<Key>
    ghost var vals: seq<int>

    /** Modulus of a stored `g`. */
    ghost function Modulus(): (m: nat)
      ensures m > 0
    {
      Pow(256, btValue)
    }

    /** Configuration accepted by the index: value_bits between 1 and 63. */
    ghost predicate Configured() {
      1 <= biValue < 64 && btValue == BytesFor(biValue)
    }

    /** The v- and e-stores hold exactly the adjacency structure of `es`. */
    ghost predicate GraphStores()
      reads this, v
    {
      && Configured()
      && nvertex >= 2 && 1 <= btVertex < 8 && nvertex < Pow(256, btVertex)
      && g != v && g.Length == nvertex && v.Length == nvertex
      && |es| <= nvertex
      && Wired(es, nvertex)
      && e == EncodeAll(es, btVertex)
      && (forall x :: 0 <= x < nvertex ==> v[x] == Last(es, |es|, x))
    }

    ghost predicate KeyAt(k: nat)
      reads this
      requires nvertex > 0 && |es| == |keys| && 1 <= k <= |es|
    {
      es[k-1].v0 == VertexOf(keys[k-1], hash1, nvertex) && es[k-1].v1 == VertexOf(keys[k-1], hash2, nvertex)
    }

    /** Edge `k` joins the two vertices of `key`, in that order. */
    ghost predicate StoredPair(key: Key, k: nat)
      reads this
    {
      nvertex > 0 && PairAt(es, k, VertexOf(key, hash1, nvertex), VertexOf(key, hash2, nvertex))
    }

    /** The key's vertices coincide, or accepted keys already connect them: its edge would close a cycle. */
    ghost predicate Clashes(key: Key)
      reads this
      requires nvertex > 0
    {
      var v0, v1 := VertexOf(key, hash1, nvertex), VertexOf(key, hash2, nvertex);
      v0 == v1 || Reachable(es, |es|, {}, v0, v1)
    }

    /** A usable index: a forest in which every accepted key's edge still carries the key's value. */
    ghost predicate Valid()
      reads this, g, v
    {
      && GraphStores()
      && IsForest(es)
      && nelements == |es| == |keys| == |vals|
      && (forall k :: 1 <= k <= |es| ==> KeyAt(k))
      && AllSums(es, g[..], vals, Modulus())
    }

    /** What a rebuild is about to insert next clashes in the index exactly when it does in the key graph. */
    lemma ClashesInKeys(all: seq<Key>, i: nat)
      requires Valid() && i < |all| && keys == all[..i]
      ensures Clashes(all[i]) <==> ClashAt(all, hash1, hash2, nvertex, i)
    {
      var fs := KeyEdges(all, hash1, hash2, nvertex);
      var v0, v1 := fs[i].v0, fs[i].v1;
      forall k | 0 <= k < i ensures es[k].v0 == fs[k].v0 && es[k].v1 == fs[k].v1 {
        assert KeyAt(k + 1) && keys[k] == all[k];
      }
      PrefixLinked(es, fs, i, v0, v1);
      LinkedIffWalk(es, i, {}, v0, v1);
    }

    lemma StoresInRange()
      requires GraphStores()
      ensures InRange(es, g[..])
    {
      forall k | 1 <= k <= |es| ensures EndsBelow(es, k, |g[..]|) { assert WiredAt(es, k, nvertex); }
    }

    /** Every id and vertex kept in the stores fits its field. */
    lemma RecordsFit()
      requires GraphStores()
      ensures forall k :: 0 <= k < |es| ==> EdgeFits(es[k], btVertex)
      ensures forall x :: 0 <= x < nvertex ==> v[x] < Pow(256, btVertex)
    {
      forall k | 0 <= k < |es| ensures EdgeFits(es[k], btVertex) { assert WiredAt(es, k + 1, nvertex); }
    }

    /** Machine-word wrap-around does not disturb residues of stored values. */
    lemma WordResidue(x: int)
      requires Configured()
      ensures Cong(x % WORD, x, Modulus())
    {
      assert Pow(256, 8) == WORD;
      PowDivides(256, btValue, 8);
      CongTruncate(x, WORD, Modulus());
    }

    // ---- store access ----

    method GetEdge(id: nat) returns (ok: bool, edge: Edge)
      requires GraphStores()
      ensures ok <==> 1 <= id <= |es|
      ensures ok ==> edge == es[id-1]
    {
      var size := 4 * btVertex;
      SlotBounds(size, |es|, id);
      EncodeLength(es, btVertex);
      if id == 0 || (id - 1) * size + size > |e| {
        // outside the store: the read fails
        return false, Edge(0, 0, 0, 0);
      }
      var record := ReadRecord(id - 1);
      RecordsFit();
      edge := UnpackEdge(record, btVertex, es[id-1]);
      ok := true;
    }

    /** Bytes of record `k`, counted from 0. */
    method ReadRecord(k: nat) returns (record: seq<Byte>)
      requires GraphStores() && k < |es|
      ensures record == EncodeEdge(es[k], btVertex)
    {
      hide Wired, EncodeEdge, Last;
      RecordAt(es, btVertex, k);
      record := e[4 * btVertex * k .. 4 * btVertex * k + 4 * btVertex];
    }

    /** graph_setg: the write keeps the low btValue bytes. */
    method SetG(x: nat, gNew: nat, ghost exact: int)
      requires x < g.Length && Cong(gNew, exact, Modulus())
      modifies g
      ensures g[..] == old(g[..])[x := g[x]]
      ensures Cong(g[x], exact, Modulus())
    {
      g[x] := gNew % Pow(256, btValue);
      CongTruncate(gNew, Modulus(), Modulus());
      CongTrans(g[x], gNew, exact, Modulus());
    }

    lemma SmallForest()
      requires Valid()
      ensures |es| < nvertex
    {
      forall k | 0 <= k < |es| ensures es[k].v0 < nvertex && es[k].v1 < nvertex { assert WiredAt(es, k + 1, nvertex); }
      ForestIsSmall(es, nvertex);
    }

    method OnPath(path: seq<nat>, vertex: nat) returns (found: bool)
      ensures found <==> vertex in path
    {
      var i := 0;
      while i < |path|
        invariant i <= |path| && vertex !in path[..i]
      {
        if path[i] == vertex { return true; }
        i := i + 1;
      }
      return false;
    }

    /** A search whose start and trail are cut off by `skip` cannot close a cycle. */
    ghost predicate Calm(vertex: nat, path: seq<nat>, skip: nat)
      reads this
    {
      IsForest(es) && forall p :: p in path ==> !Linked(es, |es|, {skip}, vertex, p)
    }

    lemma CalmOffPath(vertex: nat, path: seq<nat>, skip: nat)
      ensures Calm(vertex, path, skip) ==> vertex !in path
    {
    }

    lemma CalmStep(vertex: nat, path: seq<nat>, skip: nat, k: nat)
      requires Calm(vertex, path, skip) && Incident(es, skip, vertex) && Incident(es, k, vertex) && k != skip
      ensures IsForest(es) && Calm(es[k-1].Other(vertex), [vertex] + path, k)
    {
      SideClear(es, skip, vertex, path, k);
    }

    ghost predicate OnTrail(vertex: nat, path: seq<nat>, skip: nat)
      reads this
    {
      vertex < nvertex && Distinct(path) && (forall i :: 0 <= i < |path| ==> path[i] < nvertex)
      && Incident(es, skip, vertex)
    }

    lemma ListEdge(vertex: nat, k: nat)
      requires GraphStores() && Incident(es, k, vertex)
      ensures Wired(es, nvertex) && Configured() && g.Length == nvertex && es[k-1].Other(vertex) < nvertex
      ensures es[k-1].Touches(vertex) && es[k-1].Next(vertex) == Last(es, k - 1, vertex)
    {
      assert WiredAt(es, k, nvertex);
    }

    lemma TrailGrows(vertex: nat, path: seq<nat>, skip: nat, k: nat)
      requires OnTrail(vertex, path, skip) && vertex !in path
      requires Incident(es, k, vertex) && es[k-1].Other(vertex) < nvertex
      ensures OnTrail(es[k-1].Other(vertex), [vertex] + path, k)
    {
    }

    /** Moves `vertex` from `gOld` to `gNew` and shifts everything behind it, except through `skip`.
        `path` lists the vertices between `vertex` and the start of the search. */
    method GraphRecalc(vertex: nat, path: seq<nat>, gOld: nat, gNew: nat, skip: nat) returns (ret: Status)
      requires GraphStores() && OnTrail(vertex, path, skip)
      requires Cong(gOld, g[vertex], Modulus())
      modifies g
      ensures ret == Ok || ret == BadF
      ensures vertex in path ==> ret == BadF
      ensures Doomed(es, vertex, path, skip) ==> ret == BadF
      ensures Calm(vertex, path, skip) ==> ret == Ok && Relabelled(es, skip, vertex, old(g[..]), g[..], gNew, Modulus())
      decreases nvertex - |path|, 1
    {
      hide Relabelled, Progress, Doomed, IsExit, IsForest, Linked, Cong, Wired, Pow, EncodeAll;
      var onPath := OnPath(path, vertex);
      if onPath {
        CalmOffPath(vertex, path, skip);
        return BadF;
      }
      ghost var g0 := g[..];
      ghost var m := Modulus();
      ghost var exit := 0;  // 0, or an edge that must still be met
      if Doomed(es, vertex, path, skip) { exit := DoomedStep(es, nvertex, vertex, path, skip); }
      StoresInRange();
      ProgressStart(es, nvertex, skip, vertex, g0, gOld, gNew, m);
      PathShort([vertex] + path, nvertex);

      var edgeId := v[vertex];
      while edgeId != 0
        invariant edgeId == 0 || Incident(es, edgeId, vertex)
        invariant Calm(vertex, path, skip) ==> Progress(es, skip, vertex, edgeId, g0, g[..], gOld, gNew, m)
        invariant exit <= edgeId && (exit > 0 ==> IsExit(es, vertex, path, skip, exit))
        invariant Doomed(es, vertex, path, skip) ==> exit > 0
        decreases edgeId
      {
        ret, edgeId := RecalcEdge(vertex, path, gOld, gNew, skip, edgeId, g0, exit);
        if ret != Ok { return; }
      }
      ghost var gi := g[..];
      CongRefl(gNew, m);
      SetG(vertex, gNew, gNew);
      if Calm(vertex, path, skip) {
        ProgressEnd(es, nvertex, skip, vertex, g0, gi, gOld, gNew, g[vertex], m);
      }
      return Ok;
    }

    /** One turn of GraphRecalc's loop over the list of `vertex`. */
    method RecalcEdge(vertex: nat, path: seq<nat>, gOld: nat, gNew: nat, skip: nat, edgeId: nat,
                      ghost g0: seq<nat>, ghost exit: nat)
      returns (ret: Status, next: nat)
      requires GraphStores() && OnTrail(vertex, path, skip) && vertex !in path && |path| < nvertex
      requires Incident(es, skip, vertex) && Incident(es, edgeId, vertex)
      requires Calm(vertex, path, skip) ==> Progress(es, skip, vertex, edgeId, g0, g[..], gOld, gNew, Modulus())
      requires exit <= edgeId && (exit > 0 ==> IsExit(es, vertex, path, skip, exit))
      modifies g
      ensures ret == Ok || ret == BadF
      ensures ret == Ok ==> next == Last(es, edgeId - 1, vertex)
      ensures Calm(vertex, path, skip) ==>
        ret == Ok && Progress(es, skip, vertex, next, g0, g[..], gOld, gNew, Modulus())
      ensures ret == Ok ==> exit <= next
      decreases nvertex - |path|, 0
    {
      hide Relabelled, Progress, Doomed, IsForest, Linked, Cong, OnTrail, GraphStores, Calm;
      ret, next := Inconsistent, 0;
      var ok, edge := GetEdge(edgeId);
      if !ok { return; }
      ListEdge(vertex, edgeId);
      if edge.v0 != vertex && edge.v1 != vertex { return; }
      next := edge.Next(vertex);
      if 0 < exit < edgeId { ExitAhead(es, vertex, path, skip, exit, edgeId); }
      ghost var m := Modulus();
      if skip == edgeId {
        if Calm(vertex, path, skip) { ProgressSkip(es, nvertex, vertex, edgeId, g0, g[..], gOld, gNew, m); }
        ret := Ok;
        return;
      }
      var u := edge.Other(vertex);
      assert exit == edgeId ==> u in path || Doomed(es, u, [vertex] + path, edgeId);
      var frnOld := g[u];
      var frnNew := Sub(gOld + frnOld, gNew);
      ghost var gi := g[..];
      WordResidue(gOld + frnOld - gNew);
      CongRefl(frnOld, m);
      if Calm(vertex, path, skip) { CalmStep(vertex, path, skip, edgeId); }
      TrailGrows(vertex, path, skip, edgeId);
      ret := GraphRecalc(u, [vertex] + path, frnOld, frnNew, edgeId);
      if Calm(vertex, path, skip) {
        ProgressStep(es, nvertex, skip, vertex, edgeId, g0, gi, g[..], gOld, gNew, frnNew, m);
      }
    }

    // ---- inserting ----

    lemma WholeRecords()
      requires GraphStores()
      ensures btVertex > 0 && |e| / (4 * btVertex) == |es|
    {
      EncodeLength(es, btVertex);
      ModUnique(|e|, 4 * btVertex, |es|, 0);
    }

    /** Reserves room for one more record; its bytes are whatever the store returns. */
    method NewEdgeId() returns (id: nat)
      requires GraphStores()
      modifies this`e
      ensures id == |es| + 1
      ensures |e| == |old(e)| + 4 * btVertex && e[..|old(e)|] == old(e)
    {
      hide *;
      WholeRecords();
      var size := 4 * btVertex;
      var room := new Byte[size];
      id := |e| / size + 1;
      e := e + room[..];
    }

    method SetEdge(id: nat, edge: Edge)
      requires 1 <= btVertex < 8 && id >= 1 && 4 * btVertex * (id - 1) + 4 * btVertex <= |e|
      modifies this`e
      ensures var at := 4 * btVertex * (id - 1);
              e == old(e)[..at] + EncodeEdge(edge, btVertex) + old(e)[at + 4 * btVertex..]
    {
      var record := PackEdge(edge, btVertex);
      var at := 4 * btVertex * (id - 1);
      e := e[..at] + record + e[at + 4 * btVertex..];
    }

    /** Stores the new edge and puts it at the head of both adjacency lists. */
    method PushEdge(v0: nat, v1: nat) returns (id: nat, edge: Edge)
      requires GraphStores() && |es| < nvertex && v0 < nvertex && v1 < nvertex && v0 != v1
      modifies this`e, this`es, v
      ensures GraphStores()
      ensures es == old(es) + [edge] && id == |es|
      ensures edge == Edge(v0, v1, Last(old(es), |old(es)|, v0), Last(old(es), |old(es)|, v1))
    {
      hide EncodeEdge, Wired, Last;
      id := NewEdgeId();
      edge := Edge(v0, v1, v[v0], v[v1]);
      EncodeLength(es, btVertex);
      SetEdge(id, edge);
      v[v0] := id;
      v[v1] := id;
      WiredPush(es, nvertex, v0, v1);
      EncodeConcat(es, [edge], btVertex);
      assert [edge][..0] == [];
      assert EncodeAll([edge], btVertex) == EncodeEdge(edge, btVertex);
      es := es + [edge];
    }

    /** Gives the newest edge its value: one of its ends is set, after relabelling that end's
        component if both ends already had edges. */
    method SettleValue(edge: Edge, value: nat, id: nat, ghost es0: seq<Edge>) returns (ret: Status)
      requires GraphStores() && es == es0 + [edge] && id == |es| && IsForest(es0)
      requires edge.n0 == Last(es0, |es0|, edge.v0) && edge.n1 == Last(es0, |es0|, edge.v1)
      requires edge.v0 < nvertex && edge.v1 < nvertex && edge.v0 != edge.v1
      requires AllSums(es0, g[..], vals, Modulus())
      modifies g
      ensures ret == Ok || ret == BadF
      ensures ret == BadF <==> Linked(es0, |es0|, {}, edge.v0, edge.v1)
      ensures ret == Ok ==> AllSums(es, g[..], vals + [value], Modulus())
    {
      hide Wired, Linked, IsForest, Relabelled, Last, AllSums, Doomed, Cong, Pow, EncodeAll;
      ghost var g0, m := g[..], Modulus();
      var v0, v1 := edge.v0, edge.v1;
      if edge.n0 == 0 {
        var gNew := Sub(value, g[v1]);
        IsolatedAlone(es0, v0, v1);
        WordResidue(value - g[v1]);
        SetG(v0, gNew, value - g[v1]);
        AddAtFreeEnd(es0, edge, v0, g0, g[v0], vals, value, m);
      } else {
        var gNew := Sub(value, g[v0]);
        WordResidue(value - g[v0]);
        if edge.n1 == 0 {
          IsolatedAlone(es0, v1, v0);
          IsolatedSym(es0, v0, v1);
          SetG(v1, gNew, value - g[v0]);
          AddAtFreeEnd(es0, edge, v1, g0, g[v1], vals, value, m);
        } else {
          ret := JoinComponents(edge, gNew, id, es0);
          if ret != Ok { return; }
          AddByRelabelling(es0, edge, g0, g[..], gNew, vals, value, m);
        }
      }
      ret := Ok;
    }

    lemma IsolatedSym(es0: seq<Edge>, x: nat, y: nat)
      ensures Linked(es0, |es0|, {}, x, y) <==> Linked(es0, |es0|, {}, y, x)
    {
    }

    /** Relabels the component of `edge.v1`, unless the search comes back to its start. */
    method JoinComponents(edge: Edge, gNew: nat, id: nat, ghost es0: seq<Edge>) returns (ret: Status)
      requires GraphStores() && es == es0 + [edge] && IsForest(es0)
      requires edge.v0 < nvertex && edge.v1 < nvertex && edge.v0 != edge.v1 && id == |es|
      modifies g
      ensures ret == Ok || ret == BadF
      ensures ret == BadF <==> Linked(es0, |es0|, {}, edge.v0, edge.v1)
      ensures ret == Ok ==> Relabelled(es, |es|, edge.v1, old(g[..]), g[..], gNew, Modulus())
    {
      hide Wired, Relabelled, Last, Cong, Pow, EncodeAll;
      CongRefl(g[edge.v1], Modulus());
      ForestExtends(es0, edge);
      NewestIgnored(es0, edge, edge.v1, edge.v0);
      assert {|es|, |es|} == {|es|};
      ret := GraphRecalc(edge.v1, [], g[edge.v1], gNew, id);
    }

    /** Adds the edge of `key`; BadF exactly when its ends are already connected. */
    method GraphAddEdge(v0: nat, v1: nat, value: nat, ghost key: Key) returns (ret: Status)
      requires Valid() && v0 < nvertex && v1 < nvertex && v0 != v1
      requires v0 == VertexOf(key, hash1, nvertex) && v1 == VertexOf(key, hash2, nvertex)
      modifies this`e, this`es, this`keys, this`vals, this`nelements, g, v
      ensures GraphStores()
      ensures ret == Ok || ret == BadF
      ensures ret == BadF <==> old(Linked(es, |es|, {}, v0, v1))
      ensures ret == BadF ==> nelements == old(nelements)
      ensures ret == Ok ==> Valid() && keys == old(keys) + [key] && vals == old(vals) + [value as int]
    {
      hide Wired, Linked, IsForest, Last, AllSums, VertexOf, Pow, EncodeAll;
      ghost var es0 := es;
      SmallForest();
      var id, edge := PushEdge(v0, v1);
      ForestExtends(es0, edge);
      ret := SettleValue(edge, value, id, es0);
      if ret != Ok { return; }
      nelements := nelements + 1;
      keys := keys + [key];
      vals := vals + [value];
      assert forall k :: 0 <= k < |es0| ==> es[k] == es0[k];
      forall k | 1 <= k <= |es| ensures KeyAt(k) {
        if k <= |es0| { assert old(KeyAt(k)); }
      }
    }

    /** Stores `value` for `key`. A key whose two vertices coincide, or are already connected, breaks the index. */
    method Insert(key: Key, value: nat) returns (ret: Status)
      requires Valid()
      modifies this`e, this`es, this`keys, this`vals, this`nelements, g, v
      ensures GraphStores()
      ensures ret == ReadOnly <==> !writeable
      ensures writeable ==> (ret == BadF <==> old(Clashes(key)))
      ensures ret == Ok || ret == BadF || ret == ReadOnly
      ensures ret == BadF ==> nelements == old(nelements)
      ensures ret == Ok ==> Valid() && keys == old(keys) + [key] && vals == old(vals) + [value as int]
      ensures ret == ReadOnly ==> Valid() && keys == old(keys) && vals == old(vals)
    {
      hide AllSums, IsForest, Wired, VertexOf;
      if !writeable { return ReadOnly; }
      var v0, v1 := VertexOf(key, hash1, nvertex), VertexOf(key, hash2, nvertex);
      if v0 == v1 { return BadF; }
      assert Clashes(key) <==> Reachable(es, |es|, {}, v0, v1);
      LinkedIffWalk(es, |es|, {}, v0, v1);
      ret := GraphAddEdge(v0, v1, value, key);
    }

    // ---- reading ----

    /** What a read of `key` yields in the current state. */
    ghost function Lookup(key: Key): Option<nat>
      reads this, g
      requires nvertex > 0 && g.Length == nvertex
    {
      var v0, v1 := VertexOf(key, hash1, nvertex), VertexOf(key, hash2, nvertex);
      if v0 == v1 then None else Some(((g[v0] + g[v1]) % WORD) % Pow(2, biValue))
    }

    /** A key is not found exactly when even an empty index with these seeds would refuse it. */
    lemma LookupMisses(key: Key)
      requires nvertex > 0 && g.Length == nvertex
      ensures Lookup(key) == None <==> FirstClash([key], hash1, hash2, nvertex, 0) == 0
    {
      LoneKey(key, hash1, hash2, nvertex);
    }

    method Query(key: Key) returns (ret: Status, value: nat)
      requires Valid()
      ensures ret == Ok || ret == NoEntry
      ensures Lookup(key) == if ret == Ok then Some(value) else None
      ensures ret == NoEntry <==> FirstClash([key], hash1, hash2, nvertex, 0) == 0
    {
      LookupMisses(key);
      hide VertexOf, AllSums, IsForest, Pow, FirstClash;
      var v0, v1 := VertexOf(key, hash1, nvertex), VertexOf(key, hash2, nvertex);
      if v0 == v1 {
        return NoEntry, 0;
      }
      value := ((g[v0] + g[v1]) % WORD) % Pow(2, biValue);
      ret := Ok;
    }

    /** Any key that hashes to the pair of a stored edge reads that edge's value, cut to value_bits bits. */
    lemma PairAnswers(key: Key, k: nat)
      requires Valid() && StoredPair(key, k)
      ensures Lookup(key) == Some(vals[k-1] % Pow(2, biValue))
    {
      hide VertexOf, IsForest, Pow;
      assert WiredAt(es, k, nvertex);
      assert SumOk(es, g[..], vals, k, Modulus());
      MaskedSum(EdgeSum(es, g[..], k), vals[k-1]);
    }

    /** Every inserted key reads its value, cut to value_bits bits. */
    lemma StoredAnswers(k: nat)
      requires Valid() && k < |keys|
      ensures Lookup(keys[k]) == Some(vals[k] % Pow(2, biValue))
    {
      hide VertexOf, Pow;
      KeysArePairs(keys[k]);
      PairAnswers(keys[k], k + 1);
    }

    /** The edge of an inserted key joins the key's two vertices. */
    lemma KeysArePairs(key: Key)
      requires Valid()
      ensures nvertex > 0 && |keys| == |vals| == |es|
      ensures forall k :: 0 <= k < |keys| && keys[k] == key ==> StoredPair(key, k + 1)
    {
      hide VertexOf;
      forall k | 0 <= k < |keys| && keys[k] == key
        ensures StoredPair(key, k + 1)
      {
        assert KeyAt(k + 1);
      }
    }

    /** Masking a machine-word sum that agrees with `value` on the stored bytes gives `value`'s low bits. */
    lemma MaskedSum(sum: nat, value: int)
      requires Configured() && Cong(sum, value, Modulus())
      ensures (sum % WORD) % Pow(2, biValue) == value % Pow(2, biValue)
    {
      WordResidue(sum);
      CongTrans(sum % WORD, sum, value, Modulus());
      BitsOfBytes(btValue);
      PowDivides(2, biValue, 8 * btValue);
      CongWeaken(sum % WORD, value, Modulus(), Pow(2, biValue));
      CongIffMod(sum % WORD, value, Pow(2, biValue));
    }

    // ---- updating ----

    /** Looks the ordered pair up in the list of `v0`. */
    method FindEdge(v0: nat, v1: nat) returns (ret: Status, id: nat)
      requires GraphStores() && v0 < nvertex
      ensures ret == Ok || ret == NoEntry
      ensures ret == Ok ==> PairAt(es, id, v0, v1)
      ensures ret == NoEntry ==> forall k :: !PairAt(es, k, v0, v1)
    {
      hide EncodeAll;
      ret, id := Inconsistent, 0;
      var curr := v[v0];
      NoPairAhead(es, |es|, v0, v1);
      while true
        invariant curr == 0 || Incident(es, curr, v0)
        invariant forall k :: k > curr ==> !PairAt(es, k, v0, v1)
        invariant ret == Inconsistent
        decreases curr
      {
        var ok, edge := GetEdge(curr);
        if !ok { ret := NoEntry; return; }
        assert WiredAt(es, curr, nvertex);
        NoPairAhead(es, curr - 1, v0, v1);
        if edge.v0 == v0 && edge.v1 == v1 { ret, id := Ok, curr; return; }
        if edge.v0 == v0 { curr := edge.n0; }
        else if edge.v1 == v0 { curr := edge.n1; }
        else { return; }
        if curr == 0 { ret := NoEntry; return; }
      }
    }

    /** The values after an update of edge `k`: the labels of its two ends shift the value that was asked for. */
    ghost function Updated(k: nat, value: nat): seq<int>
      reads this, g, v
      requires Valid() && 1 <= k <= |es|
    {
      assert WiredAt(es, k, nvertex);
      vals[k - 1 := value + g[es[k-1].v0] - g[es[k-1].v1]]
    }

    /** Changes the value of a stored pair, or inserts a new key. `id` is the edge found, 0 if there was none.
        Every other edge keeps its value; the updated one ends at value + g[v0] - g[v1]. */
    method Update(key: Key, value: nat) returns (ret: Status, ghost id: nat)
      requires Valid()
      modifies this`e, this`es, this`keys, this`vals, this`nelements, g, v
      ensures GraphStores()
      ensures ret == ReadOnly <==> !writeable
      ensures id > 0 <==> writeable && exists k :: old(StoredPair(key, k))
      ensures id > 0 ==> ret == Ok && Valid() && keys == old(keys) && es == old(es)
      ensures id > 0 ==> StoredPair(key, id)
      ensures id > 0 ==> old(StoredPair(key, id)) && vals == old(Updated(id, value))
      ensures id > 0 ==> (vals[id-1] % Pow(2, biValue) == value % Pow(2, biValue)
        <==> old(g[es[id-1].v0]) % Pow(2, biValue) == old(g[es[id-1].v1]) % Pow(2, biValue))
      ensures writeable && id == 0 ==> (ret == BadF <==> old(Clashes(key)))
      ensures writeable && id == 0 && ret != BadF
              ==> ret == Ok && Valid() && keys == old(keys) + [key] && vals == old(vals) + [value as int]
      ensures ret == BadF ==> nelements == old(nelements)
      ensures ret == ReadOnly ==> Valid() && keys == old(keys) && vals == old(vals)
    {
      hide AllSums, IsForest, Wired, VertexOf, EncodeAll;
      id := 0;
      if !writeable { ret := ReadOnly; return; }
      var v0, v1 := VertexOf(key, hash1, nvertex), VertexOf(key, hash2, nvertex);
      if v0 == v1 {
        SelfPair(v0);
        assert forall k :: !StoredPair(key, k);
        ret := Insert(key, value);
        return;
      }
      var found, at := FindEdge(v0, v1);
      if found != Ok {
        assert forall k :: !StoredPair(key, k);
        ret := Insert(key, value);
        return;
      }
      assert StoredPair(key, at);
      ret := RelabelEdge(v0, v1, value, at);
      id := at;
    }

    /** The relabelling part of mphf_chm_imp_update. */
    method RelabelEdge(v0: nat, v1: nat, value: nat, at: nat) returns (ret: Status)
      requires Valid() && PairAt(es, at, v0, v1) && v0 < nvertex && v1 < nvertex
      modifies this`vals, g
      ensures ret == Ok && Valid() && vals == old(vals)[at - 1 := value + old(g[v0]) - old(g[v1])]
      ensures vals[at-1] % Pow(2, biValue) == value % Pow(2, biValue)
        <==> old(g[v0]) % Pow(2, biValue) == old(g[v1]) % Pow(2, biValue)
    {
      hide AllSums, IsForest, Relabelled, Linked, Cong, VertexOf, Pow, EncodeAll, Last, Doomed;
      assert WiredAt(es, at, nvertex);
      var gOld := g[v1];
      var gNew := Sub(value, gOld);
      ghost var g0 := g[..];
      WordResidue(value - gOld);
      CongRefl(gOld, Modulus());
      ret := GraphRecalc(v1, [], gOld, gNew, at);
      if ret != Ok { return; }
      ghost var g1 := g[..];
      CongRefl(gNew, Modulus());
      SetG(v1, gNew, gNew);
      RewriteStart(es, nvertex, at, v1, g0, g1, gNew, g[v1], Modulus());
      UpdateEdge(es, nvertex, at, g0, g[..], gNew, vals, value, Modulus());
      vals := vals[at - 1 := value + g0[v0] - g0[v1]];
      UpdateReadsBack(value, g0[v0], g0[v1], Pow(2, biValue));
      forall k | 1 <= k <= |es| ensures KeyAt(k) { assert old(KeyAt(k)); }
    }

    lemma SelfPair(x: nat)
      requires GraphStores()
      ensures forall k :: !PairAt(es, k, x, x)
    {
      forall k | 1 <= k <= |es| ensures !PairAt(es, k, x, x) { assert WiredAt(es, k, nvertex); }
    }

    // ---- (re)building ----

    constructor (writeable: bool, nelementsMin: nat, nelementsStep: nat, nelementsMul: nat, valueBits: nat)
      requires 1 <= valueBits < 64
      ensures Configured() && fresh(g) && fresh(v)
      ensures this.writeable == writeable && biValue == valueBits
      ensures this.nelementsMin == nelementsMin && this.nelementsStep == nelementsStep
      ensures this.nelementsMul == nelementsMul && capacity == nelements == 0
      ensures keys == []
    {
      this.writeable := writeable;
      this.nelementsMin, this.nelementsStep, this.nelementsMul := nelementsMin, nelementsStep, nelementsMul;
      biValue, btValue := valueBits, BytesFor(valueBits);
      capacity, nelements, hash1, hash2, nvertex, btVertex := 0, 0, 0, 0, 0, 0;
      g, v, e := new nat[0], new nat[0], [];
      es, keys, vals := [], [], [];
    }

    /** Sizes for `wanted` elements: 2.09 vertices each, and bytes for a vertex number.
        More than 2^56 - 1 vertices are refused, where an 8-byte mask would be needed. */
    method ConfigureR(wanted: nat) returns (ret: Status)
      modifies this`nvertex, this`capacity, this`btVertex
      ensures ret == if Buildable(wanted) then Ok else TooMany
      ensures ret == Ok ==> VertexTarget(wanted) == Some(nvertex) && capacity == if wanted == 0 then 1 else wanted
      ensures ret == Ok ==> nvertex >= 2 && 1 <= btVertex < 8 && Pow(256, btVertex - 1) <= nvertex < Pow(256, btVertex)
    {
      hide Pow;
      var target := VertexTarget(wanted);
      if target.None? { return TooMany; }
      nvertex, capacity := target.value, if wanted == 0 then 1 else wanted;
      var bits := LogAny(nvertex, 2);
      btVertex := BytesFor(bits);
      VertexBytes(nvertex, bits);
      if btVertex >= 8 { return TooMany; }
      ret := Ok;
    }

    function WantedElements(): nat
      reads this
    {
      Wanted(capacity, nelements, nelementsMin, nelementsStep, nelementsMul)
    }

    /** Zero-filled g- and v-stores, no edge records. */
    method FileInit()
      requires Configured() && nelements == 0
      requires nvertex >= 2 && 1 <= btVertex < 8 && nvertex < Pow(256, btVertex)
      modifies this`g, this`v, this`e, this`es, this`keys, this`vals
      ensures Valid() && keys == [] && fresh(g) && fresh(v)
    {
      hide Pow;
      g := new nat[nvertex](_ => 0);
      v := new nat[nvertex](_ => 0);
      e := [];
      es, keys, vals := [], [], [];
    }

    /** The sizes and seeds of a build for `wanted` elements. */
    ghost predicate Planned(wanted: nat, seed1: bv64, seed2: bv64)
      reads this
    {
      && hash1 == seed1 && hash2 == seed2 && VertexTarget(wanted) == Some(nvertex)
      && capacity == if wanted == 0 then 1 else wanted
    }

    /** Empties the index under new hash seeds, growing it when it was at least 80% full. */
    method Rebuild(seed1: bv64, seed2: bv64) returns (ret: Status)
      requires Configured()
      modifies this
      ensures ret == if Buildable(old(WantedElements())) then Ok else TooMany
      ensures ret == Ok ==> Valid() && keys == [] && fresh(g) && fresh(v)
      ensures ret == Ok ==> Planned(old(WantedElements()), seed1, seed2) && nelements == 0
      ensures ret == TooMany ==> g == old(g) && v == old(v) && e == old(e) && nelements == 0
    {
      hide Pow, WantedElements, Buildable;
      var wanted := WantedElements();
      hash1, hash2, nelements := seed1, seed2, 0;
      ret := ConfigureR(wanted);
      if ret != Ok { return; }
      FileInit();
    }
  }

  /** For every key there are seeds with which an empty index accepts it and reads it back. */
  method AnyKeyFits(index: Index, key: Key, value: nat) returns (ret: Status, read: Status, got: nat)
    requires index.Configured() && index.writeable && Buildable(index.WantedElements())
    modifies index
    ensures ret == Ok && read == Ok && got == value % Pow(2, index.biValue)
  {
    hide VertexOf, AllSums, IsForest, Wired, Pow, EncodeAll, Buildable, Linked, Last;
    ret := index.Rebuild(key, key ^ 1);
    SeedsForKey(key, index.nvertex);
    LoneKey(key, key, key ^ 1, index.nvertex);
    assert [key][..0] == [];
    index.ClashesInKeys([key], 0);
    ret := index.Insert(key, value);
    index.StoredAnswers(0);
    read, got := index.Query(key);
  }
}
