/** Connectivity and acyclicity of the graph whose edges are the inserted keys.
    Edges are numbered from 1 in insertion order, as in the e-store; edge `id` is `es[id-1]`. */
module Forest {

  /** One record of the e-store: two end vertices and, for each end, the id of the next
      (older) edge in that vertex's adjacency list (0 ends the list). */
  datatype Edge = Edge(v0: nat, v1: nat, n0: nat, n1: nat) {
    predicate Touches(x: nat) { v0 == x || v1 == x }
    /** The end that is not `x`. */
    function Other(x: nat): nat { if v0 == x then v1 else v0 }
    /** The adjacency-list successor on the side of `x`. */
    function Next(x: nat): nat { if v0 == x then n0 else n1 }
  }

  /** Representative of `x` among the first `n` edges when the edges in `skip` are ignored:
      every edge merges the class of its first end into the class of its second end. */
  ghost function Rep(es: seq<Edge>, n: nat, skip: set<nat>, x: nat): nat
    requires n <= |es|
  {
    if n == 0 then x
    else
      var r := Rep(es, n - 1, skip, x);
      if n !in skip && r == Rep(es, n - 1, skip, es[n-1].v0) then Rep(es, n - 1, skip, es[n-1].v1) else r
  }

  /** `x` and `y` are connected by the first `n` edges, not using those in `skip`. */
  ghost predicate Linked(es: seq<Edge>, n: nat, skip: set<nat>, x: nat, y: nat)
    requires n <= |es|
  {
    Rep(es, n, skip, x) == Rep(es, n, skip, y)
  }

  /** Without edge `k` its ends are not connected. */
  ghost predicate IsBridge(es: seq<Edge>, k: nat)
    requires 1 <= k <= |es|
  {
    !Linked(es, |es|, {k}, es[k-1].v0, es[k-1].v1)
  }

  /** No edge lies on a cycle. */
  ghost predicate IsForest(es: seq<Edge>) {
    forall k :: 1 <= k <= |es| ==> IsBridge(es, k)
  }

  // ---- Linked means: joined by a walk ----

  /** `walk` lists edge ids leading from `x` to `y`, none of them in `skip`. */
  ghost predicate IsWalk(es: seq<Edge>, n: nat, skip: set<nat>, x: nat, y: nat, walk: seq<nat>)
    requires n <= |es|
    decreases |walk|
  {
    if walk == [] then x == y
    else
      && 1 <= walk[0] <= n && walk[0] !in skip
      && es[walk[0]-1].Touches(x)
      && IsWalk(es, n, skip, es[walk[0]-1].Other(x), y, walk[1..])
  }

  lemma {:induction false} EdgeLinks(es: seq<Edge>, n: nat, skip: set<nat>, k: nat)
    requires 1 <= k <= n <= |es| && k !in skip
    ensures Linked(es, n, skip, es[k-1].v0, es[k-1].v1)
  {
    if k < n {
      EdgeLinks(es, n - 1, skip, k);
    }
  }

  lemma {:induction false} WalkLinks(es: seq<Edge>, n: nat, skip: set<nat>, x: nat, y: nat, walk: seq<nat>)
    requires n <= |es| && IsWalk(es, n, skip, x, y, walk)
    ensures Linked(es, n, skip, x, y)
    decreases |walk|
  {
    if walk != [] {
      EdgeLinks(es, n, skip, walk[0]);
      WalkLinks(es, n, skip, es[walk[0]-1].Other(x), y, walk[1..]);
    }
  }

  lemma {:induction false} WalkAppend(es: seq<Edge>, n: nat, skip: set<nat>, x: nat, y: nat, z: nat,
                                      p: seq<nat>, q: seq<nat>)
    requires n <= |es| && IsWalk(es, n, skip, x, y, p) && IsWalk(es, n, skip, y, z, q)
    ensures IsWalk(es, n, skip, x, z, p + q)
    decreases |p|
  {
    if p == [] {
      assert p + q == q;
    } else {
      WalkAppend(es, n, skip, es[p[0]-1].Other(x), y, z, p[1..], q);
      assert (p + q)[1..] == p[1..] + q;
    }
  }

  lemma {:induction false} WalkMonotone(es: seq<Edge>, m: nat, n: nat, skip: set<nat>, x: nat, y: nat, p: seq<nat>)
    requires m <= n <= |es| && IsWalk(es, m, skip, x, y, p)
    ensures IsWalk(es, n, skip, x, y, p)
    decreases |p|
  {
    if p != [] {
      WalkMonotone(es, m, n, skip, es[p[0]-1].Other(x), y, p[1..]);
    }
  }

  lemma {:induction false} LinksWalk(es: seq<Edge>, n: nat, skip: set<nat>, x: nat, y: nat) returns (walk: seq<nat>)
    requires n <= |es| && Linked(es, n, skip, x, y)
    ensures IsWalk(es, n, skip, x, y, walk)
  {
    if n == 0 {
      walk := [];
    } else if Linked(es, n - 1, skip, x, y) {
      walk := LinksWalk(es, n - 1, skip, x, y);
      WalkMonotone(es, n - 1, n, skip, x, y, walk);
    } else {
      // exactly one of x, y was merged by the last edge
      var e := es[n-1];
      var near := Linked(es, n - 1, skip, x, e.v0);
      var a, b := if near then e.v0 else e.v1, if near then e.v1 else e.v0;
      var p := LinksWalk(es, n - 1, skip, x, a);
      var q := LinksWalk(es, n - 1, skip, b, y);
      WalkMonotone(es, n - 1, n, skip, x, a, p);
      WalkMonotone(es, n - 1, n, skip, b, y, q);
      assert [n][1..] == [];
      assert IsWalk(es, n, skip, a, b, [n]);
      WalkAppend(es, n, skip, a, b, y, [n], q);
      WalkAppend(es, n, skip, x, a, y, p, [n] + q);
      walk := p + ([n] + q);
    }
  }

  ghost predicate Reachable(es: seq<Edge>, n: nat, skip: set<nat>, x: nat, y: nat)
    requires n <= |es|
  {
    exists walk: seq<nat> :: IsWalk(es, n, skip, x, y, walk)
  }

  /** The representative computation decides connectivity by walks. */
  lemma LinkedIffWalk(es: seq<Edge>, n: nat, skip: set<nat>, x: nat, y: nat)
    requires n <= |es|
    ensures Linked(es, n, skip, x, y) <==> Reachable(es, n, skip, x, y)
  {
    if Linked(es, n, skip, x, y) {
      var walk := LinksWalk(es, n, skip, x, y);
      assert IsWalk(es, n, skip, x, y, walk);
    }
    if Reachable(es, n, skip, x, y) {
      var walk: seq<nat> :| IsWalk(es, n, skip, x, y, walk);
      WalkLinks(es, n, skip, x, y, walk);
    }
  }

  // ---- how linking reacts to ignoring more edges ----

  lemma {:induction false} FewerSkipped(es: seq<Edge>, n: nat, skip: set<nat>, more: set<nat>, x: nat, y: nat)
    requires n <= |es| && skip <= more && Linked(es, n, more, x, y)
    ensures Linked(es, n, skip, x, y)
  {
    if n > 0 {
      var e := es[n-1];
      if Linked(es, n - 1, more, x, y) {
        FewerSkipped(es, n - 1, skip, more, x, y);
      } else if Linked(es, n - 1, more, x, e.v0) {
        FewerSkipped(es, n - 1, skip, more, x, e.v0);
        FewerSkipped(es, n - 1, skip, more, e.v1, y);
      } else {
        FewerSkipped(es, n - 1, skip, more, y, e.v0);
        FewerSkipped(es, n - 1, skip, more, e.v1, x);
      }
    }
  }

  /** Only edges up to `n` matter. */
  lemma {:induction false} SkipBeyond(es: seq<Edge>, n: nat, skip: set<nat>, k: nat, x: nat)
    requires n <= |es| && n < k
    ensures Rep(es, n, skip + {k}, x) == Rep(es, n, skip, x)
  {
    if n > 0 {
      SkipBeyond(es, n - 1, skip, k, x);
      SkipBeyond(es, n - 1, skip, k, es[n-1].v0);
      SkipBeyond(es, n - 1, skip, k, es[n-1].v1);
    }
  }

  /** Only the ends of the first `n` edges matter. */
  lemma {:induction false} RepPrefix(es: seq<Edge>, fs: seq<Edge>, n: nat, skip: set<nat>, x: nat)
    requires n <= |es| && n <= |fs| && forall k :: 0 <= k < n ==> es[k].v0 == fs[k].v0 && es[k].v1 == fs[k].v1
    ensures Rep(es, n, skip, x) == Rep(fs, n, skip, x)
  {
    if n > 0 {
      RepPrefix(es, fs, n - 1, skip, x);
      RepPrefix(es, fs, n - 1, skip, es[n-1].v0);
      RepPrefix(es, fs, n - 1, skip, es[n-1].v1);
    }
  }

  /** A class that does not contain `v` does not need any edge at `v`. */
  lemma {:induction false} AvoidVertex(es: seq<Edge>, n: nat, skip: set<nat>, s: nat, v: nat, x: nat, y: nat)
    requires n <= |es| && 1 <= s <= |es| && es[s-1].Touches(v)
    requires Linked(es, n, skip, x, y) && !Linked(es, n, skip, x, v)
    ensures Linked(es, n, skip + {s}, x, y)
  {
    if n > 0 {
      var e := es[n-1];
      if Linked(es, n - 1, skip, x, y) {
        AvoidVertex(es, n - 1, skip, s, v, x, y);
      } else if Linked(es, n - 1, skip, x, e.v0) {
        AvoidVertex(es, n - 1, skip, s, v, x, e.v0);
        AvoidVertex(es, n - 1, skip, s, v, y, e.v1);
      } else {
        AvoidVertex(es, n - 1, skip, s, v, y, e.v0);
        AvoidVertex(es, n - 1, skip, s, v, x, e.v1);
      }
    }
  }

  /** First step of a walk from `v` to `t`: an edge at `v` whose far end reaches `t` without it. */
  lemma {:induction false} FirstStep(es: seq<Edge>, n: nat, skip: set<nat>, v: nat, t: nat) returns (k: nat)
    requires n <= |es| && v != t && Linked(es, n, skip, v, t)
    ensures 1 <= k <= n && k !in skip && es[k-1].Touches(v)
    ensures Linked(es, n, skip + {k}, es[k-1].Other(v), t)
  {
    assert n > 0;
    var e := es[n-1];
    if Linked(es, n - 1, skip, v, t) {
      k := FirstStep(es, n - 1, skip, v, t);
    } else {
      var near := Linked(es, n - 1, skip, v, e.v0);
      var a, b := if near then e.v0 else e.v1, if near then e.v1 else e.v0;
      if v == a {
        k := n;
        SkipBeyond(es, n - 1, skip, n, b);
        SkipBeyond(es, n - 1, skip, n, t);
      } else {
        k := FirstStep(es, n - 1, skip, v, a);
        AvoidVertex(es, n - 1, skip, k, v, b, t);
      }
    }
  }

  // ---- forests ----

  /** Ignoring the newest edge is the same as not having it. */
  lemma NewestIgnored(es: seq<Edge>, e: Edge, x: nat, y: nat)
    ensures Linked(es + [e], |es| + 1, {|es| + 1}, x, y) <==> Linked(es, |es|, {}, x, y)
  {
    var fs, n := es + [e], |es|;
    RepPrefix(fs, es, n, {n + 1}, x);
    RepPrefix(fs, es, n, {n + 1}, y);
    assert {} + {n + 1} == {n + 1};
    SkipBeyond(es, n, {}, n + 1, x);
    SkipBeyond(es, n, {}, n + 1, y);
  }

  /** A new edge keeps the forest exactly when its ends were not yet connected. */
  lemma ForestExtends(es: seq<Edge>, e: Edge)
    requires IsForest(es)
    ensures IsForest(es + [e]) <==> !Linked(es, |es|, {}, e.v0, e.v1)
  {
    var fs, n := es + [e], |es|;
    assert fs[(n + 1) - 1] == e;
    NewestIgnored(es, e, e.v0, e.v1);
    if !Linked(es, n, {}, e.v0, e.v1) {
      forall k | 1 <= k <= |fs|
        ensures IsBridge(fs, k)
      {
        if k <= n {
          OldEdgeStaysBridge(es, e, k);
          assert fs[k-1] == es[k-1];
        }
      }
    } else {
      assert !IsBridge(fs, n + 1);
    }
  }

  lemma OldEdgeStaysBridge(es: seq<Edge>, e: Edge, k: nat)
    requires IsForest(es) && 1 <= k <= |es| && !Linked(es, |es|, {}, e.v0, e.v1)
    ensures !Linked(es + [e], |es| + 1, {k}, es[k-1].v0, es[k-1].v1)
  {
    var fs, n, a, b := es + [e], |es|, es[k-1].v0, es[k-1].v1;
    forall x ensures Rep(fs, n, {k}, x) == Rep(es, n, {k}, x) { RepPrefix(fs, es, n, {k}, x); }
    assert IsBridge(es, k);
    EdgeLinks(es, n, {}, k);
    if Linked(fs, n + 1, {k}, a, b) {
      if Linked(es, n, {k}, a, e.v0) {
        FewerSkipped(es, n, {}, {k}, a, e.v0);
        FewerSkipped(es, n, {}, {k}, b, e.v1);
      } else {
        FewerSkipped(es, n, {}, {k}, a, e.v1);
        FewerSkipped(es, n, {}, {k}, b, e.v0);
      }
      assert false;
    }
  }

  /** The vertices below `nv`. */
  ghost function Vertices(nv: nat): (r: set<nat>)
    ensures forall x: nat :: x in r <==> x < nv
    ensures |r| == nv
  {
    if nv == 0 then {} else Vertices(nv - 1) + {nv - 1}
  }

  /** The representatives of the vertices below `nv`. */
  ghost function Reps(es: seq<Edge>, n: nat, nv: nat): set<nat>
    requires n <= |es|
  {
    set x | x in Vertices(nv) :: Rep(es, n, {}, x)
  }

  /** No edge joins two vertices that earlier edges already connect. */
  ghost predicate NeverRedundant(es: seq<Edge>, k: nat)
    requires 1 <= k <= |es|
  {
    !Linked(es, k - 1, {}, es[k-1].v0, es[k-1].v1)
  }

  lemma {:induction false} RepsCount(es: seq<Edge>, n: nat, nv: nat)
    requires n <= |es| && nv > 0
    requires forall k :: 0 <= k < n ==> es[k].v0 < nv && es[k].v1 < nv
    requires forall k :: 1 <= k <= n ==> NeverRedundant(es, k)
    ensures |Reps(es, n, nv)| == nv - n
  {
    if n == 0 {
      assert Reps(es, 0, nv) == Vertices(nv);
    } else {
      RepsCount(es, n - 1, nv);
      assert NeverRedundant(es, n);
      RepsShrink(es, n, nv);
    }
  }

  /** A non-redundant edge removes one representative. */
  lemma RepsShrink(es: seq<Edge>, n: nat, nv: nat)
    requires 1 <= n <= |es| && es[n-1].v0 < nv && es[n-1].v1 < nv && NeverRedundant(es, n)
    ensures |Reps(es, n, nv)| == |Reps(es, n - 1, nv)| - 1
  {
    var before, after := Reps(es, n - 1, nv), Reps(es, n, nv);
    var ra, rb := Rep(es, n - 1, {}, es[n-1].v0), Rep(es, n - 1, {}, es[n-1].v1);
    assert ra in before && rb in before && ra != rb;
    forall r | r in before - {ra} ensures r in after {
      var x :| x in Vertices(nv) && r == Rep(es, n - 1, {}, x);
      assert Rep(es, n, {}, x) == r;
    }
    forall r | r in after ensures r in before - {ra} {
      var x :| x in Vertices(nv) && r == Rep(es, n, {}, x);
      assert Rep(es, n - 1, {}, x) in before;
    }
    assert after == before - {ra};
  }

  lemma ForestPrefix(es: seq<Edge>, k: nat)
    requires IsForest(es) && 1 <= k <= |es|
    ensures NeverRedundant(es, k)
  {
    assert IsBridge(es, k);
    if Linked(es, k - 1, {}, es[k-1].v0, es[k-1].v1) {
      assert {} + {k} == {k};
      SkipBeyond(es, k - 1, {}, k, es[k-1].v0);
      SkipBeyond(es, k - 1, {}, k, es[k-1].v1);
      LinkedLater(es, k - 1, |es|, {k}, es[k-1].v0, es[k-1].v1);
      assert false;
    }
  }

  lemma {:induction false} LinkedLater(es: seq<Edge>, m: nat, n: nat, skip: set<nat>, x: nat, y: nat)
    requires m <= n <= |es| && Linked(es, m, skip, x, y)
    ensures Linked(es, n, skip, x, y)
  {
    if m < n {
      LinkedLater(es, m, n - 1, skip, x, y);
    }
  }

  /** A forest on `nv` vertices has fewer than `nv` edges. */
  lemma ForestIsSmall(es: seq<Edge>, nv: nat)
    requires IsForest(es) && nv > 0
    requires forall k :: 0 <= k < |es| ==> es[k].v0 < nv && es[k].v1 < nv
    ensures |es| < nv
  {
    forall k | 1 <= k <= |es| ensures NeverRedundant(es, k) {
      ForestPrefix(es, k);
    }
    RepsCount(es, |es|, nv);
    assert Rep(es, |es|, {}, 0) in Reps(es, |es|, nv);
  }
}
