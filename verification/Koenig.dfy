/** A dead end of the search bounds every matching: the vertex cover argument of Koenig. */
module Koenig {
  import opened Edges
  import opened GuidedSearch

  /** Edges of the graph in which no left node occurs twice. */
  ghost predicate LeftOnce(g: Graph, m: set<Edge>) {
    (forall e :: e in m ==> e in g.edges) && (forall v :: v in g.left ==> Degree(m, v) <= 1)
  }

  lemma {:induction false} NothingOnce(g: Graph)
    ensures LeftOnce(g, {})
  {
    var none: set<Edge> := {};
    assert forall v :: Incident(none, v) == {};
  }

  ghost predicate Injective(f: map<Edge, Edge>) {
    forall d, e :: d in f && e in f && f[d] == f[e] ==> d == e
  }

  lemma {:induction false} InjectionSize(f: map<Edge, Edge>, m: set<Edge>)
    requires Injective(f) && forall e :: e in f ==> f[e] in m
    ensures |f.Keys| <= |m|
  {
    if f.Keys != {} {
      var e :| e in f.Keys;
      var f' := map d | d in f && d != e :: f[d];
      assert f'.Keys == f.Keys - {e};
      InjectionSize(f', m - {f[e]});
    }
  }

  /**
   * What m pays for the edge e: the cover is the left nodes outside z and the right nodes
   * inside z, and d is the edge of m at the node of the cover that covers e.
   */
  ghost predicate Pays(m: set<Edge>, z: set<Node>, e: Edge, d: Edge) {
    d in m && if e.node1 in z then e.node2 in z && d.node2 == e.node2 else d.node1 == e.node1
  }

  lemma {:induction false} Covered(g: Graph, m: set<Edge>, z: set<Node>, e: Edge) returns (d: Edge)
    requires g.Bipartite() && LeftOnce(g, m) && DeadEnd(g, m, z) && e in g.edges
    ensures Pays(m, z, e, d)
  {
    var l, r := e.node1, e.node2;
    DegreeZero(m, l);
    DegreeZero(m, r);
    if l in z {
      if e in m {
        var r' :| r' in z && Edge(l, r') in m;
        DegreeOne(m, l, e, Edge(l, r'));
      }
      assert r in z;
      d :| d in m && d.Touches(r);
      assert d in g.edges;
    } else {
      d :| d in m && d.Touches(l);
      assert d in g.edges;
    }
  }

  /** An edge of m pays for one edge of a matching only. */
  lemma {:induction false} PaysOnce(g: Graph, m: set<Edge>, z: set<Node>, n: set<Edge>, d: Edge, e: Edge, x: Edge)
    requires g.Bipartite() && DeadEnd(g, m, z) && (forall y :: y in m || y in n ==> y in g.edges)
    requires IsMatching(n) && d in n && e in n && Pays(m, z, d, x) && Pays(m, z, e, x)
    ensures d == e
  {
    if d.node1 in z && e.node1 in z {
      DegreeOne(n, d.node2, d, e);
    } else if d.node1 !in z && e.node1 !in z {
      DegreeOne(n, d.node1, d, e);
    } else {
      assert false;
    }
  }

  /** No matching is larger than a set of edges at which the search gives up. */
  lemma {:induction false} DeadEndOptimal(g: Graph, m: set<Edge>, z: set<Node>, n: set<Edge>)
    requires g.Bipartite() && LeftOnce(g, m) && DeadEnd(g, m, z)
    requires IsMatching(n) && forall e :: e in n ==> e in g.edges
    ensures |n| <= |m|
  {
    forall e | e in n
      ensures exists d :: Pays(m, z, e, d)
    {
      var d := Covered(g, m, z, e);
    }
    var f := map e | e in n :: var d :| Pays(m, z, e, d); d;
    forall d, e | d in f && e in f && f[d] == f[e]
      ensures d == e
    {
      PaysOnce(g, m, z, n, d, e, f[d]);
    }
    InjectionSize(f, m);
    assert f.Keys == n;
  }

  /** A matching uses every right node at most once. */
  lemma {:induction false} MatchingFitsRight(g: Graph, n: set<Edge>)
    requires g.Bipartite() && IsMatching(n) && forall e :: e in n ==> e in g.edges
    ensures |n| <= |ToSet(g.right)|
  {
    RightSize(n, ToSet(g.right));
  }

  lemma {:induction false} RightSize(n: set<Edge>, right: set<Node>)
    requires IsMatching(n) && forall e :: e in n ==> e.node2 in right
    ensures |n| <= |right|
  {
    if n != {} {
      var e :| e in n;
      forall v
        ensures Degree(n - {e}, v) <= 1
      {
        assert Degree(n, v) <= 1 && Incident(n - {e}, v) <= Incident(n, v);
        Subset(Incident(n - {e}, v), Incident(n, v));
      }
      forall d | d in n - {e}
        ensures d.node2 in right - {e.node2}
      {
        assert d in n;
        if d.node2 == e.node2 {
          DegreeOne(n, d.node2, d, e);
        }
      }
      RightSize(n - {e}, right - {e.node2});
    }
  }
}
