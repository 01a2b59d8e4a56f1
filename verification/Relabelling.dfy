/** Adjacency lists over the edge records, and what relabelling one side of an edge does to
    the values stored on the vertices. */
module Relabelling {
  import opened Arithmetic
  import opened Forest

  ghost predicate Incident(es: seq<Edge>, k: nat, x: nat) {
    1 <= k <= |es| && es[k-1].Touches(x)
  }

  /** The newest edge at `x` among the first `n`, 0 if there is none. */
  ghost function Last(es: seq<Edge>, n: nat, x: nat): (r: nat)
    requires n <= |es|
    ensures r <= n
    ensures r > 0 ==> Incident(es, r, x)
    ensures forall k :: r < k <= n ==> !Incident(es, k, x)
  {
    if n == 0 then 0 else if es[n-1].Touches(x) then n else Last(es, n - 1, x)
  }

  ghost predicate WiredAt(es: seq<Edge>, k: nat, nv: nat)
    requires 1 <= k <= |es|
  {
    var e := es[k-1];
    && e.v0 < nv && e.v1 < nv && e.v0 != e.v1
    && e.n0 == Last(es, k - 1, e.v0)
    && e.n1 == Last(es, k - 1, e.v1)
  }

  /** Every record joins two different vertices and threads the list of each through the newest older edge. */
  ghost predicate Wired(es: seq<Edge>, nv: nat) {
    forall k :: 1 <= k <= |es| ==> WiredAt(es, k, nv)
  }

  lemma {:induction false} LastPrefix(es: seq<Edge>, fs: seq<Edge>, n: nat, x: nat)
    requires n <= |es| && n <= |fs| && es[..n] == fs[..n]
    ensures Last(es, n, x) == Last(fs, n, x)
  {
    if n > 0 {
      assert es[n-1] == es[..n][n-1] == fs[n-1];
      assert es[..n-1] == es[..n][..n-1] == fs[..n-1];
      LastPrefix(es, fs, n - 1, x);
    }
  }

  /** Pushing a record that points at the current list heads keeps the lists threaded. */
  lemma WiredPush(es: seq<Edge>, nv: nat, v0: nat, v1: nat)
    requires Wired(es, nv) && v0 < nv && v1 < nv && v0 != v1
    ensures Wired(es + [Edge(v0, v1, Last(es, |es|, v0), Last(es, |es|, v1))], nv)
    ensures forall x :: Last(es + [Edge(v0, v1, Last(es, |es|, v0), Last(es, |es|, v1))], |es| + 1, x)
                        == if x == v0 || x == v1 then |es| + 1 else Last(es, |es|, x)
  {
    var e := Edge(v0, v1, Last(es, |es|, v0), Last(es, |es|, v1));
    var fs := es + [e];
    assert fs[..|es|] == es[..|es|] == es;
    forall x ensures Last(fs, |es|, x) == Last(es, |es|, x) { LastPrefix(es, fs, |es|, x); }
    forall k | 1 <= k <= |fs| ensures WiredAt(fs, k, nv) {
      if k <= |es| {
        assert WiredAt(es, k, nv);
        assert es[..k-1] == fs[..k-1];
        LastPrefix(es, fs, k - 1, es[k-1].v0);
        LastPrefix(es, fs, k - 1, es[k-1].v1);
      }
    }
  }

  /** The ids met by following `Next` from `pos` until 0. */
  ghost function Chain(es: seq<Edge>, nv: nat, pos: nat, x: nat): seq<nat>
    requires Wired(es, nv) && (pos == 0 || Incident(es, pos, x))
    decreases pos
  {
    if pos == 0 then [] else
      assert WiredAt(es, pos, nv);
      [pos] + Chain(es, nv, es[pos-1].Next(x), x)
  }

  /** From a list head, the walk visits exactly the older incident edges, each once, newest first. */
  lemma {:induction false} ChainExact(es: seq<Edge>, nv: nat, n: nat, x: nat)
    requires Wired(es, nv) && n <= |es|
    ensures var c := Chain(es, nv, Last(es, n, x), x);
            && (forall k: nat :: k in c <==> k <= n && Incident(es, k, x))
            && (forall i, j :: 0 <= i < j < |c| ==> c[i] > c[j])
    decreases n
  {
    var pos := Last(es, n, x);
    if pos > 0 {
      assert WiredAt(es, pos, nv);
      ChainExact(es, nv, pos - 1, x);
      var c, d := Chain(es, nv, pos, x), Chain(es, nv, Last(es, pos - 1, x), x);
      assert c == [pos] + d;
      forall j | 0 <= j < |d| ensures d[j] < pos { assert d[j] in d; }
    }
  }

  // ---- relabelling ----

  ghost predicate InRange(es: seq<Edge>, g: seq<nat>) {
    forall k :: 1 <= k <= |es| ==> EndsBelow(es, k, |g|)
  }

  ghost predicate EndsBelow(es: seq<Edge>, k: nat, nv: nat)
    requires 1 <= k <= |es|
  {
    es[k-1].v0 < nv && es[k-1].v1 < nv
  }

  /** Sum of the values on the ends of edge `k`. */
  ghost function EdgeSum(es: seq<Edge>, g: seq<nat>, k: nat): nat
    requires InRange(es, g) && 1 <= k <= |es|
  {
    assert EndsBelow(es, k, |g|);
    g[es[k-1].v0] + g[es[k-1].v1]
  }

  /** From `g0` to `g1`: `v` got `gNew`, only `v`'s side of edge `skip` was touched, and every other
      edge kept its sum modulo `m`. */
  ghost predicate Relabelled(es: seq<Edge>, skip: nat, v: nat, g0: seq<nat>, g1: seq<nat>, gNew: nat, m: nat)
    requires m > 0
  {
    && |g1| == |g0| && InRange(es, g0) && v < |g0|
    && Cong(g1[v], gNew, m)
    && (forall x :: 0 <= x < |g0| && !Linked(es, |es|, {skip}, v, x) ==> g1[x] == g0[x])
    && (forall k :: 1 <= k <= |es| && k != skip ==> Cong(EdgeSum(es, g1, k), EdgeSum(es, g0, k), m))
  }

  /** State of the loop over `v`'s list: the edges newer than `pos` have been handled. */
  ghost predicate Progress(es: seq<Edge>, skip: nat, v: nat, pos: nat, g0: seq<nat>, gi: seq<nat>,
                           gOld: nat, gNew: nat, m: nat)
    requires m > 0
  {
    && |gi| == |g0| && InRange(es, g0) && v < |g0|
    && gi[v] == g0[v]
    && (forall x :: 0 <= x < |g0| && !Linked(es, |es|, {skip}, v, x) ==> gi[x] == g0[x])
    && (forall k :: 1 <= k <= |es| && k != skip && !Incident(es, k, v) ==>
          Cong(EdgeSum(es, gi, k), EdgeSum(es, g0, k), m))
    && (forall k :: 1 <= k <= |es| && k != skip && Incident(es, k, v) ==> FarEnd(es, v, pos, g0, gi, gOld, gNew, m, k))
  }

  /** The far end of a list edge: shifted if the edge was handled, untouched otherwise. */
  ghost predicate FarEnd(es: seq<Edge>, v: nat, pos: nat, g0: seq<nat>, gi: seq<nat>,
                         gOld: nat, gNew: nat, m: nat, k: nat)
    requires m > 0 && |gi| == |g0| && InRange(es, g0) && Incident(es, k, v)
  {
    assert EndsBelow(es, k, |g0|);
    var u := es[k-1].Other(v);
    if k > pos then Cong(gi[u], gOld + g0[u] - gNew, m) else gi[u] == g0[u]
  }

  /** On a forest, the far side of a list edge lies inside `v`'s side of `skip`, without `v`. */
  lemma SideInside(es: seq<Edge>, skip: nat, v: nat, k: nat, x: nat)
    requires IsForest(es) && Incident(es, skip, v) && Incident(es, k, v) && k != skip
    requires Linked(es, |es|, {k}, es[k-1].Other(v), x)
    ensures !Linked(es, |es|, {k}, v, x)
    ensures Linked(es, |es|, {skip}, v, x)
  {
    var n, u := |es|, es[k-1].Other(v);
    assert IsBridge(es, k);
    AvoidVertex(es, n, {k}, skip, v, u, x);
    FewerSkipped(es, n, {skip}, {k} + {skip}, u, x);
    EdgeLinks(es, n, {skip}, k);
  }

  /** Far ends of the other list edges are outside. */
  lemma SidesDisjoint(es: seq<Edge>, v: nat, k: nat, k': nat)
    requires IsForest(es) && Incident(es, k, v) && Incident(es, k', v) && k != k'
    ensures !Linked(es, |es|, {k}, es[k-1].Other(v), es[k'-1].Other(v))
  {
    assert IsBridge(es, k);
    EdgeLinks(es, |es|, {k}, k');
  }

  /** Nothing on the search path, nor `v` itself, lies behind the next list edge. */
  lemma SideClear(es: seq<Edge>, skip: nat, v: nat, path: seq<nat>, k: nat)
    requires IsForest(es) && Incident(es, skip, v) && Incident(es, k, v) && k != skip
    requires forall p :: p in path ==> !Linked(es, |es|, {skip}, v, p)
    ensures forall p :: p in [v] + path ==> !Linked(es, |es|, {k}, es[k-1].Other(v), p)
  {
    assert IsBridge(es, k);
    forall p | p in [v] + path ensures !Linked(es, |es|, {k}, es[k-1].Other(v), p) {
      if Linked(es, |es|, {k}, es[k-1].Other(v), p) { SideInside(es, skip, v, k, p); }
    }
  }

  lemma ProgressStep(es: seq<Edge>, nv: nat, skip: nat, v: nat, k: nat, g0: seq<nat>, gi: seq<nat>, gj: seq<nat>,
                     gOld: nat, gNew: nat, frnNew: nat, m: nat)
    requires m > 0 && Wired(es, nv) && IsForest(es)
    requires Incident(es, skip, v) && Incident(es, k, v) && k != skip
    requires Progress(es, skip, v, k, g0, gi, gOld, gNew, m)
    requires Relabelled(es, k, es[k-1].Other(v), gi, gj, frnNew, m)
    requires es[k-1].Other(v) < |gi| && Cong(frnNew, gOld + gi[es[k-1].Other(v)] - gNew, m)
    ensures Progress(es, skip, v, Last(es, k - 1, v), g0, gj, gOld, gNew, m)
  {
    var n, u, pos := |es|, es[k-1].Other(v), Last(es, k - 1, v);
    assert IsBridge(es, k);
    assert gj[v] == gi[v];
    forall x | 0 <= x < |g0| && !Linked(es, n, {skip}, v, x) ensures gj[x] == g0[x] {
      if Linked(es, n, {k}, u, x) { SideInside(es, skip, v, k, x); }
    }
    forall j | 1 <= j <= n && j != skip && !Incident(es, j, v)
      ensures Cong(EdgeSum(es, gj, j), EdgeSum(es, g0, j), m)
    {
      CongTrans(EdgeSum(es, gj, j), EdgeSum(es, gi, j), EdgeSum(es, g0, j), m);
    }
    forall j | 1 <= j <= n && j != skip && Incident(es, j, v)
      ensures FarEnd(es, v, pos, g0, gj, gOld, gNew, m, j)
    {
      assert FarEnd(es, v, k, g0, gi, gOld, gNew, m, j);
      if j == k {
        CongTrans(gj[u], frnNew, gOld + g0[u] - gNew, m);
      } else {
        SidesDisjoint(es, v, k, j);
        assert EndsBelow(es, j, |g0|);
        assert gj[es[j-1].Other(v)] == gi[es[j-1].Other(v)];
      }
    }
  }

  lemma ProgressSkip(es: seq<Edge>, nv: nat, v: nat, k: nat, g0: seq<nat>, gi: seq<nat>, gOld: nat, gNew: nat, m: nat)
    requires m > 0 && Wired(es, nv) && Incident(es, k, v)
    requires Progress(es, k, v, k, g0, gi, gOld, gNew, m)
    ensures Progress(es, k, v, Last(es, k - 1, v), g0, gi, gOld, gNew, m)
  {
    forall j | 1 <= j <= |es| && j != k && Incident(es, j, v)
      ensures FarEnd(es, v, Last(es, k - 1, v), g0, gi, gOld, gNew, m, j)
    {
      assert FarEnd(es, v, k, g0, gi, gOld, gNew, m, j);
    }
  }

  lemma ProgressStart(es: seq<Edge>, nv: nat, skip: nat, v: nat, g0: seq<nat>, gOld: nat, gNew: nat, m: nat)
    requires m > 0 && Wired(es, nv) && InRange(es, g0) && v < |g0|
    ensures Progress(es, skip, v, Last(es, |es|, v), g0, g0, gOld, gNew, m)
  {
    forall k | 1 <= k <= |es| && k != skip && Incident(es, k, v)
      ensures FarEnd(es, v, Last(es, |es|, v), g0, g0, gOld, gNew, m, k)
    {
      assert EndsBelow(es, k, |g0|);
    }
  }

  /** With the whole list handled, writing `gNew` at `v` restores the sums of its edges. */
  lemma ProgressEnd(es: seq<Edge>, nv: nat, skip: nat, v: nat, g0: seq<nat>, gi: seq<nat>, gOld: nat, gNew: nat,
                    gv: nat, m: nat)
    requires m > 0 && Wired(es, nv) && Progress(es, skip, v, 0, g0, gi, gOld, gNew, m)
    requires Cong(gOld, g0[v], m) && Cong(gv, gNew, m)
    ensures Relabelled(es, skip, v, g0, gi[v := gv], gNew, m)
  {
    var g1 := gi[v := gv];
    forall k | 1 <= k <= |es| && k != skip
      ensures Cong(EdgeSum(es, g1, k), EdgeSum(es, g0, k), m)
    {
      assert WiredAt(es, k, nv) && EndsBelow(es, k, |g0|);
      if Incident(es, k, v) {
        assert FarEnd(es, v, 0, g0, gi, gOld, gNew, m, k);
        var u := es[k-1].Other(v);
        CongAdd(gv, gNew, g1[u], gOld + g0[u] - gNew, m);
        CongAdd(gOld, g0[v], g0[u], g0[u], m);
        CongTrans(gv + g1[u], gOld + g0[u], g0[v] + g0[u], m);
      } else {
        assert EdgeSum(es, g1, k) == EdgeSum(es, gi, k);
      }
    }
  }

  /** Writing the new label of `v` a second time changes no residue. */
  lemma RewriteStart(es: seq<Edge>, nv: nat, skip: nat, v: nat, g0: seq<nat>, g1: seq<nat>, gNew: nat, x: nat, m: nat)
    requires m > 0 && Relabelled(es, skip, v, g0, g1, gNew, m) && Cong(x, gNew, m) && Wired(es, nv)
    ensures Relabelled(es, skip, v, g0, g1[v := x], gNew, m)
  {
    var g2 := g1[v := x];
    CongSym(g1[v], gNew, m);
    CongTrans(x, gNew, g1[v], m);
    forall k | 1 <= k <= |es| && k != skip
      ensures Cong(EdgeSum(es, g2, k), EdgeSum(es, g0, k), m)
    {
      assert EndsBelow(es, k, |g0|) && WiredAt(es, k, nv);
      if es[k-1].Touches(v) {
        var o := g1[es[k-1].Other(v)];
        CongAdd(x, g1[v], o, o, m);
      }
      CongTrans(EdgeSum(es, g2, k), EdgeSum(es, g1, k), EdgeSum(es, g0, k), m);
    }
  }

  // ---- values carried by the edges ----

  ghost predicate SumOk(es: seq<Edge>, g: seq<nat>, vals: seq<int>, k: nat, m: nat)
    requires m > 0 && InRange(es, g) && |vals| == |es| && 1 <= k <= |es|
  {
    Cong(EdgeSum(es, g, k), vals[k-1], m)
  }

  /** Every edge carries its value: the sum of its ends, modulo `m`. */
  ghost predicate AllSums(es: seq<Edge>, g: seq<nat>, vals: seq<int>, m: nat)
    requires m > 0
  {
    InRange(es, g) && |vals| == |es| && forall k :: 1 <= k <= |es| ==> SumOk(es, g, vals, k, m)
  }

  lemma IsolatedAlone(es: seq<Edge>, x: nat, y: nat)
    requires Last(es, |es|, x) == 0 && x != y
    ensures !Linked(es, |es|, {}, x, y)
  {
    if Linked(es, |es|, {}, x, y) {
      var k := FirstStep(es, |es|, {}, x, y);
      assert Incident(es, k, x);
    }
  }

  /** A new edge one of whose ends was isolated: setting that end gives the edge its value. */
  lemma AddAtFreeEnd(es: seq<Edge>, e: Edge, free: nat, g: seq<nat>, x: nat, vals: seq<int>, value: int, m: nat)
    requires m > 0 && AllSums(es, g, vals, m) && e.v0 < |g| && e.v1 < |g| && e.v0 != e.v1
    requires e.Touches(free) && Last(es, |es|, free) == 0
    requires Cong(x, value - g[e.Other(free)], m)
    ensures AllSums(es + [e], g[free := x], vals + [value], m)
  {
    var fs, g1 := es + [e], g[free := x];
    assert EndsBelow(fs, |fs|, |g1|);
    forall k | 1 <= k <= |es| ensures EndsBelow(fs, k, |g1|) { assert EndsBelow(es, k, |g|); }
    forall k | 1 <= k <= |fs| ensures SumOk(fs, g1, vals + [value], k, m) {
      if k <= |es| {
        assert !Incident(es, k, free) && SumOk(es, g, vals, k, m);
        assert fs[k-1] == es[k-1] && EndsBelow(es, k, |g|) && !es[k-1].Touches(free);
      } else {
        var o := g[e.Other(free)];
        CongAdd(x, value - o, o, o, m);
      }
    }
  }

  /** A new edge between two components: relabelling the side of `e.v1` gives the edge its value. */
  lemma AddByRelabelling(es: seq<Edge>, e: Edge, g: seq<nat>, g1: seq<nat>, gNew: nat, vals: seq<int>, value: int,
                         m: nat)
    requires m > 0 && AllSums(es, g, vals, m) && e.v0 < |g| && e.v1 < |g|
    requires !Linked(es, |es|, {}, e.v0, e.v1)
    requires Relabelled(es + [e], |es| + 1, e.v1, g, g1, gNew, m)
    requires Cong(gNew, value - g[e.v0], m)
    ensures AllSums(es + [e], g1, vals + [value], m)
  {
    var fs := es + [e];
    NewestIgnored(es, e, e.v1, e.v0);
    forall k | 1 <= k <= |fs| ensures EndsBelow(fs, k, |g1|) { assert EndsBelow(fs, k, |g|); }
    forall k | 1 <= k <= |fs| ensures SumOk(fs, g1, vals + [value], k, m) {
      if k <= |es| {
        assert SumOk(es, g, vals, k, m);
        assert EdgeSum(fs, g, k) == EdgeSum(es, g, k);
        CongTrans(EdgeSum(fs, g1, k), EdgeSum(fs, g, k), vals[k-1], m);
      } else {
        CongTrans(g1[e.v1], gNew, value - g[e.v0], m);
        CongAdd(g1[e.v1], value - g[e.v0], g[e.v0], g[e.v0], m);
      }
    }
  }

  /** Relabelling one side of edge `id` changes the value of that edge only. */
  lemma UpdateEdge(es: seq<Edge>, nv: nat, id: nat, g: seq<nat>, g1: seq<nat>, gNew: nat, vals: seq<int>, value: int,
                   m: nat)
    requires m > 0 && AllSums(es, g, vals, m) && Wired(es, nv) && |g| == nv && 1 <= id <= |es| && IsForest(es)
    requires es[id-1].v0 < nv && es[id-1].v1 < nv
    requires Relabelled(es, id, es[id-1].v1, g, g1, gNew, m)
    requires Cong(gNew, value - g[es[id-1].v1], m)
    ensures AllSums(es, g1, vals[id-1 := value + g[es[id-1].v0] - g[es[id-1].v1]], m)
  {
    var e := es[id-1];
    var vals1 := vals[id-1 := value + g[e.v0] - g[e.v1]];
    assert IsBridge(es, id);
    forall k | 1 <= k <= |es| ensures EndsBelow(es, k, |g1|) { assert EndsBelow(es, k, |g|); }
    forall k | 1 <= k <= |es| ensures SumOk(es, g1, vals1, k, m) {
      assert SumOk(es, g, vals, k, m);
      if k == id {
        CongTrans(g1[e.v1], gNew, value - g[e.v1], m);
        CongAdd(g1[e.v1], value - g[e.v1], g[e.v0], g[e.v0], m);
      } else {
        CongTrans(EdgeSum(es, g1, k), EdgeSum(es, g, k), vals[k-1], m);
      }
    }
  }

  /** An updated key reads back its new value exactly when the two ends carried the same label. */
  lemma UpdateReadsBack(value: int, g0: nat, g1: nat, p: nat)
    requires p > 0
    ensures (value + g0 - g1) % p == value % p <==> g0 % p == g1 % p
  {
    CongIffMod(value + g0 - g1, value, p);
    CongIffMod(g0, g1, p);
  }

  /** Two vertices, one edge inserted with value 5 (its first end was free, so it took the value),
      then updated to 7: the edge ends up with 12. */
  lemma UpdateCounterexample()
    ensures var es, m := [Edge(0, 1, 0, 0)], 0x1_0000_0000;
      && IsForest(es)
      && AllSums(es, [5, 0], [5], m)
      && Relabelled(es, 1, 1, [5, 0], [5, 7], 7, m)
      && EdgeSum(es, [5, 7], 1) % m == 12
  {
    var es, m := [Edge(0, 1, 0, 0)], 0x1_0000_0000;
    assert EndsBelow(es, 1, 2);
    assert AllSums([], [0, 0], [], m);
    AddAtFreeEnd([], es[0], 0, [0, 0], 5, [], 5, m);
    assert [] + es == es && [] + [5] == [5] && [0, 0][0 := 5] == [5, 0];
    assert Rep(es, 0, {1}, 0) == 0 && Rep(es, 0, {1}, 1) == 1;
    assert IsBridge(es, 1);
  }

  // ---- runs that meet a cycle ----

  /** Whatever happens, the search from `v` must come back to the start `root` through the newest edge. */
  ghost predicate Doomed(es: seq<Edge>, v: nat, path: seq<nat>, skip: nat) {
    && |es| > 0
    && var top := |es|;
    && var root := es[top-1].v1;
    && Linked(es, top, {skip, top}, v, es[top-1].v0)
    && if skip == top then v == root else root in path
  }

  /** A list edge of `v` that leads back to the trail. */
  ghost predicate IsExit(es: seq<Edge>, v: nat, path: seq<nat>, skip: nat, k: nat) {
    && Incident(es, k, v) && k != skip
    && (es[k-1].Other(v) in path || Doomed(es, es[k-1].Other(v), [v] + path, k))
  }

  /** Some list edge other than `skip` leads on to the start. */
  lemma DoomedStep(es: seq<Edge>, nv: nat, v: nat, path: seq<nat>, skip: nat) returns (k: nat)
    requires Wired(es, nv) && Doomed(es, v, path, skip) && v !in path
    ensures IsExit(es, v, path, skip, k) && 1 <= k <= Last(es, |es|, v)
  {
    var top := |es|;
    var far := es[top-1].v0;
    assert WiredAt(es, top, nv);
    if v == far {
      k := top;
    } else {
      k := FirstStep(es, top, {skip, top}, v, far);
      FewerSkipped(es, top, {k, top}, {skip, top} + {k}, es[k-1].Other(v), far);
    }
  }

  /** An exit that is not the edge just handled is still ahead. */
  lemma ExitAhead(es: seq<Edge>, v: nat, path: seq<nat>, skip: nat, exit: nat, k: nat)
    requires IsExit(es, v, path, skip, exit) && exit < k <= |es|
    ensures exit <= Last(es, k - 1, v)
  {
  }

  // ---- the path of the search ----

  ghost predicate Distinct(s: seq<nat>) {
    forall i, j :: 0 <= i < j < |s| ==> s[i] != s[j]
  }

  lemma {:induction false} PathShort(path: seq<nat>, nv: nat)
    requires Distinct(path) && forall i :: 0 <= i < |path| ==> path[i] < nv
    ensures |path| <= nv
  {
    if path != [] {
      assert path[0] < nv;  // drop the occurrence of nv-1, if any
      if i :| 0 <= i < |path| && path[i] == nv - 1 {
        var rest := path[..i] + path[i+1..];
        PathShort(rest, nv - 1);
      } else {
        PathShort(path, nv - 1);
      }
    }
  }
}
