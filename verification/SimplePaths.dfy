/**
 The walk that both module tools share: a recursion over an object graph that marks an object on the way in and
 clears the mark on the way out. Because marks are cleared, the walk enters an object once for every simple path
 that leads to it; `VisitsExactly` and `VisitsOnce` say so, and `VisitsCover` derives that nothing reachable is missed.
 */
module SimplePaths {
  import opened Sequences

  type Ref = nat
  datatype Edge = Edge(slot: nat, target: Ref)

  /** The edges that the walk follows out of each object, in order. */
  type Graph = seq<seq<Edge>>

  ghost predicate EdgesIn(n: nat, es: seq<Edge>) {
    forall i | 0 <= i < |es| :: es[i].target < n
  }

  ghost predicate ValidGraph(g: Graph) {
    forall v | 0 <= v < |g| :: EdgesIn(|g|, g[v])
  }

  function Below(n: nat): (s: set<Ref>)
    ensures forall v: Ref :: v in s <==> v < n
  {
    if n == 0 then {} else Below(n - 1) + {n - 1}
  }

  ghost function Nodes(g: Graph): set<Ref> { Below(|g|) }

  // ---- The walk ----

  ghost function Prepend(e: Edge, ps: seq<seq<Edge>>): (r: seq<seq<Edge>>)
    ensures |r| == |ps|
  {
    seq(|ps|, i requires 0 <= i < |ps| => [e] + ps[i])
  }

  /** The objects that the walk enters from `v`, each as the path that leads to it. */
  ghost function Visits(g: Graph, v: Ref, marked: set<Ref>): seq<seq<Edge>>
    requires ValidGraph(g) && v < |g| && v !in marked
    decreases Nodes(g) - marked, 0
  {
    assert v in Nodes(g) - marked && v !in Nodes(g) - (marked + {v});
    [[]] + VisitsFrom(g, g[v], marked + {v})
  }

  ghost function VisitsFrom(g: Graph, es: seq<Edge>, marked: set<Ref>): seq<seq<Edge>>
    requires ValidGraph(g) && EdgesIn(|g|, es)
    decreases Nodes(g) - marked, |es|
  {
    if es == [] then []
    else
      (if es[0].target in marked then [] else Prepend(es[0], Visits(g, es[0].target, marked)))
      + VisitsFrom(g, es[1..], marked)
  }

  lemma VisitsFromFirst(g: Graph, es: seq<Edge>, e: Edge, rest: seq<Edge>, marked: set<Ref>)
    requires ValidGraph(g) && EdgesIn(|g|, es) && es == [e] + rest
    ensures EdgesIn(|g|, rest) && e.target < |g|
    ensures e.target in marked ==> VisitsFrom(g, es, marked) == VisitsFrom(g, rest, marked)
    ensures e.target !in marked ==>
              VisitsFrom(g, es, marked) == Prepend(e, Visits(g, e.target, marked)) + VisitsFrom(g, rest, marked)
  {
    assert es[0] == e && es[1..] == rest;
    assert forall i | 0 <= i < |rest| :: rest[i] == es[i + 1];
  }

  // ---- Paths, without the walk ----

  function NodeAt(v: Ref, p: seq<Edge>, i: nat): Ref
    requires i <= |p|
  {
    if i == 0 then v else p[i - 1].target
  }

  ghost predicate IsPath(g: Graph, v: Ref, p: seq<Edge>) {
    forall i | 0 <= i < |p| :: NodeAt(v, p, i) < |g| && p[i] in g[NodeAt(v, p, i)]
  }

  ghost predicate Avoids(v: Ref, p: seq<Edge>, marked: set<Ref>) {
    forall i | 0 <= i <= |p| :: NodeAt(v, p, i) !in marked
  }

  ghost predicate NoRepeats(v: Ref, p: seq<Edge>) {
    forall i, j | 0 <= i < j <= |p| :: NodeAt(v, p, i) != NodeAt(v, p, j)
  }

  /** A simple path from `v` through unmarked objects. */
  ghost predicate Simple(g: Graph, v: Ref, marked: set<Ref>, p: seq<Edge>) {
    IsPath(g, v, p) && Avoids(v, p, marked) && NoRepeats(v, p)
  }

  /** `w` can be reached from `v` through unmarked objects. */
  ghost predicate Reaches(g: Graph, v: Ref, marked: set<Ref>, w: Ref) {
    exists p :: IsPath(g, v, p) && Avoids(v, p, marked) && NodeAt(v, p, |p|) == w
  }

  lemma NodeShift(v: Ref, p: seq<Edge>)
    requires p != []
    ensures forall i | 0 <= i < |p| :: NodeAt(p[0].target, p[1..], i) == NodeAt(v, p, i + 1)
  {
  }

  /** A simple path is its first edge and a simple path that also avoids where it came from. */
  lemma SimpleSplit(g: Graph, v: Ref, marked: set<Ref>, p: seq<Edge>)
    requires v < |g| && p != []
    ensures Simple(g, v, marked, p) <==>
            v !in marked && p[0] in g[v] && Simple(g, p[0].target, marked + {v}, p[1..])
  {
    if Simple(g, v, marked, p) {
      SimpleTail(g, v, marked, p);
    }
    if v !in marked && p[0] in g[v] && Simple(g, p[0].target, marked + {v}, p[1..]) {
      SimpleCons(g, v, marked, p);
    }
  }

  lemma SimpleTail(g: Graph, v: Ref, marked: set<Ref>, p: seq<Edge>)
    requires v < |g| && p != [] && Simple(g, v, marked, p)
    ensures v !in marked && p[0] in g[v] && Simple(g, p[0].target, marked + {v}, p[1..])
  {
    var w, q := p[0].target, p[1..];
    NodeShift(v, p);
    assert NodeAt(v, p, 0) == v;
    forall i | 0 <= i < |q|
      ensures NodeAt(w, q, i) < |g| && q[i] in g[NodeAt(w, q, i)]
    {
      assert q[i] == p[i + 1] && NodeAt(w, q, i) == NodeAt(v, p, i + 1);
    }
    forall i | 0 <= i <= |q|
      ensures NodeAt(w, q, i) !in marked + {v}
    {
      assert NodeAt(w, q, i) == NodeAt(v, p, i + 1) != NodeAt(v, p, 0);
    }
    forall i, j | 0 <= i < j <= |q|
      ensures NodeAt(w, q, i) != NodeAt(w, q, j)
    {
      assert NodeAt(v, p, i + 1) != NodeAt(v, p, j + 1);
    }
  }

  lemma SimpleCons(g: Graph, v: Ref, marked: set<Ref>, p: seq<Edge>)
    requires v < |g| && p != []
    requires v !in marked && p[0] in g[v] && Simple(g, p[0].target, marked + {v}, p[1..])
    ensures Simple(g, v, marked, p)
  {
    var w, q := p[0].target, p[1..];
    NodeShift(v, p);
    forall i | 0 <= i < |p|
      ensures NodeAt(v, p, i) < |g| && p[i] in g[NodeAt(v, p, i)]
    {
      if i > 0 {
        assert p[i] == q[i - 1] && NodeAt(v, p, i) == NodeAt(w, q, i - 1);
      }
    }
    forall i | 0 <= i <= |p|
      ensures NodeAt(v, p, i) !in marked
    {
      if i > 0 {
        assert NodeAt(v, p, i) == NodeAt(w, q, i - 1);
      }
    }
    forall i, j | 0 <= i < j <= |p|
      ensures NodeAt(v, p, i) != NodeAt(v, p, j)
    {
      assert NodeAt(v, p, j) == NodeAt(w, q, j - 1) != v;
      if i > 0 {
        assert NodeAt(v, p, i) == NodeAt(w, q, i - 1);
      }
    }
  }

  lemma SimpleEmpty(g: Graph, v: Ref, marked: set<Ref>)
    ensures Simple(g, v, marked, []) <==> v !in marked
  {
    assert NodeAt(v, [], 0) == v;
  }

  lemma InPrepend(e: Edge, ps: seq<seq<Edge>>, p: seq<Edge>)
    ensures p in Prepend(e, ps) <==> p != [] && p[0] == e && p[1..] in ps
  {
    if p in Prepend(e, ps) {
      var i :| 0 <= i < |ps| && Prepend(e, ps)[i] == p;
      assert p == [e] + ps[i] && p[1..] == ps[i];
    }
    if p != [] && p[0] == e && p[1..] in ps {
      var i :| 0 <= i < |ps| && ps[i] == p[1..];
      assert Prepend(e, ps)[i] == [e] + p[1..] == p;
    }
  }

  // ---- What the walk enters ----

  /** The walk enters exactly the simple paths through unmarked objects. */
  lemma {:induction false} VisitsExactly(g: Graph, v: Ref, marked: set<Ref>, p: seq<Edge>)
    requires ValidGraph(g) && v < |g| && v !in marked
    ensures p in Visits(g, v, marked) <==> Simple(g, v, marked, p)
    decreases Nodes(g) - marked, 0
  {
    assert v in Nodes(g) - marked && v !in Nodes(g) - (marked + {v});
    if p == [] {
      assert Visits(g, v, marked)[0] == [];
      SimpleEmpty(g, v, marked);
    } else {
      var rest := VisitsFrom(g, g[v], marked + {v});
      assert p in Visits(g, v, marked) <==> p in rest;
      SimpleSplit(g, v, marked, p);
      VisitsFromExactly(g, g[v], marked + {v}, p);
    }
  }

  lemma {:induction false} VisitsFromExactly(g: Graph, es: seq<Edge>, marked: set<Ref>, p: seq<Edge>)
    requires ValidGraph(g) && EdgesIn(|g|, es)
    ensures p in VisitsFrom(g, es, marked) <==>
            p != [] && p[0] in es && Simple(g, p[0].target, marked, p[1..])
    decreases Nodes(g) - marked, |es|
  {
    if es != [] {
      var e := es[0];
      VisitsFromExactly(g, es[1..], marked, p);
      assert p != [] ==> (p[0] in es <==> p[0] == e || p[0] in es[1..]);
      if e.target !in marked {
        InPrepend(e, Visits(g, e.target, marked), p);
        if p != [] {
          VisitsExactly(g, e.target, marked, p[1..]);
        }
      } else if p != [] && p[0] == e {
        assert NodeAt(e.target, p[1..], 0) in marked;
      }
    }
  }

  /** No path is walked twice, as long as the edges out of an object differ. */
  lemma {:induction false} VisitsOnce(g: Graph, v: Ref, marked: set<Ref>)
    requires ValidGraph(g) && v < |g| && v !in marked
    requires forall u | 0 <= u < |g| :: Distinct(g[u])
    ensures Distinct(Visits(g, v, marked))
    decreases Nodes(g) - marked, 0
  {
    assert v in Nodes(g) - marked && v !in Nodes(g) - (marked + {v});
    VisitsFromOnce(g, g[v], marked + {v});
    var rest := VisitsFrom(g, g[v], marked + {v});
    forall i | 0 <= i < |rest|
      ensures rest[i] != []
    {
      assert rest[i] in rest;
      VisitsFromExactly(g, g[v], marked + {v}, rest[i]);
    }
  }

  lemma {:induction false} VisitsFromOnce(g: Graph, es: seq<Edge>, marked: set<Ref>)
    requires ValidGraph(g) && EdgesIn(|g|, es) && Distinct(es)
    requires forall u | 0 <= u < |g| :: Distinct(g[u])
    ensures Distinct(VisitsFrom(g, es, marked))
    decreases Nodes(g) - marked, |es|
  {
    if es != [] {
      VisitsFromOnce(g, es[1..], marked);
      var rest := VisitsFrom(g, es[1..], marked);
      if es[0].target !in marked {
        var inner := Visits(g, es[0].target, marked);
        var head := Prepend(es[0], inner);
        VisitsOnce(g, es[0].target, marked);
        forall i, j | 0 <= i < j < |head|
          ensures head[i] != head[j]
        {
          assert head[i][1..] == inner[i] && head[j][1..] == inner[j];
        }
        forall i, j | 0 <= i < |head| && 0 <= j < |rest|
          ensures head[i] != rest[j]
        {
          assert rest[j] in rest;
          VisitsFromExactly(g, es[1..], marked, rest[j]);
          assert head[i][0] == es[0];
        }
      }
    }
  }

  // ---- Reachable means reachable by a simple path ----

  ghost function Cut(p: seq<Edge>, i: nat, j: nat): seq<Edge>
    requires i < j <= |p|
  {
    p[..i] + p[j..]
  }

  lemma CutNodes(v: Ref, p: seq<Edge>, i: nat, j: nat, k: nat)
    requires i < j <= |p| && NodeAt(v, p, i) == NodeAt(v, p, j) && k <= |Cut(p, i, j)|
    ensures NodeAt(v, Cut(p, i, j), k) == if k < i then NodeAt(v, p, k) else NodeAt(v, p, k + (j - i))
  {
  }

  /** Cutting a loop out of a path leaves a shorter path between the same ends. */
  lemma CutLoop(g: Graph, v: Ref, marked: set<Ref>, p: seq<Edge>, i: nat, j: nat)
    requires IsPath(g, v, p) && Avoids(v, p, marked)
    requires i < j <= |p| && NodeAt(v, p, i) == NodeAt(v, p, j)
    ensures IsPath(g, v, Cut(p, i, j)) && Avoids(v, Cut(p, i, j), marked)
    ensures NodeAt(v, Cut(p, i, j), |Cut(p, i, j)|) == NodeAt(v, p, |p|)
  {
    var q := Cut(p, i, j);
    forall k | 0 <= k < |q|
      ensures NodeAt(v, q, k) < |g| && q[k] in g[NodeAt(v, q, k)]
    {
      CutNodes(v, p, i, j, k);
      assert q[k] == if k < i then p[k] else p[k + (j - i)];
    }
    forall k | 0 <= k <= |q|
      ensures NodeAt(v, q, k) !in marked
    {
      CutNodes(v, p, i, j, k);
    }
    CutNodes(v, p, i, j, |q|);
  }

  lemma {:induction false} LoopErasure(g: Graph, v: Ref, marked: set<Ref>, p: seq<Edge>) returns (q: seq<Edge>)
    requires IsPath(g, v, p) && Avoids(v, p, marked)
    ensures Simple(g, v, marked, q) && NodeAt(v, q, |q|) == NodeAt(v, p, |p|)
    decreases |p|
  {
    if NoRepeats(v, p) {
      q := p;
    } else {
      var i, j :| 0 <= i < j <= |p| && NodeAt(v, p, i) == NodeAt(v, p, j);
      CutLoop(g, v, marked, p, i, j);
      q := LoopErasure(g, v, marked, Cut(p, i, j));
    }
  }

  /** Coverage: the walk enters an object if and only if it is reachable through unmarked objects, however the graph
      is tied in cycles. */
  lemma VisitsCover(g: Graph, v: Ref, marked: set<Ref>, w: Ref)
    requires ValidGraph(g) && v < |g| && v !in marked
    ensures Reaches(g, v, marked, w) <==>
            exists p :: p in Visits(g, v, marked) && NodeAt(v, p, |p|) == w
  {
    if Reaches(g, v, marked, w) {
      var p :| IsPath(g, v, p) && Avoids(v, p, marked) && NodeAt(v, p, |p|) == w;
      var q := LoopErasure(g, v, marked, p);
      VisitsExactly(g, v, marked, q);
    }
    if p :| p in Visits(g, v, marked) && NodeAt(v, p, |p|) == w {
      VisitsExactly(g, v, marked, p);
    }
  }
}
