/**
 * Graphs on which LargestMatching returns a matching: when left nodes with a neighbour in common have all
 * neighbours in common, as in complete bipartite graphs and when neighbours are found by comparing values.
 */
module Blocks {
  import opened Edges
  import opened GuidedSearch
  import opened Paths
  import opened Phases
  import Koenig

  ghost predicate InBlocks(g: Graph) {
    forall u, v, r, s ::
      Edge(u, r) in g.edges && Edge(v, r) in g.edges && Edge(u, s) in g.edges ==> Edge(v, s) in g.edges
  }

  /** Nodes are neighbours exactly when their values are equal. */
  ghost predicate Compares<V>(g: Graph, leftValues: seq<V>, rightValues: seq<V>) {
    && |leftValues| == |g.left| && |rightValues| == |g.right|
    && forall i, j :: 0 <= i < |g.left| && 0 <= j < |g.right| ==>
         (Edge(g.left[i], g.right[j]) in g.edges <==> leftValues[i] == rightValues[j])
  }

  lemma {:induction false} ComparedInBlocks<V>(g: Graph, leftValues: seq<V>, rightValues: seq<V>)
    requires g.Bipartite() && Compares(g, leftValues, rightValues)
    ensures InBlocks(g)
  {
    forall u, v, r, s | Edge(u, r) in g.edges && Edge(v, r) in g.edges && Edge(u, s) in g.edges
      ensures Edge(v, s) in g.edges
    {
      var i, k :| 0 <= i < |g.left| && 0 <= k < |g.left| && g.left[i] == u && g.left[k] == v;
      var j, l :| 0 <= j < |g.right| && 0 <= l < |g.right| && g.right[j] == r && g.right[l] == s;
      assert leftValues[i] == rightValues[j] == leftValues[k] && leftValues[i] == rightValues[l];
    }
  }

  lemma {:induction false} CompleteInBlocks(g: Graph)
    requires g.Bipartite() && forall l, r :: l in g.left && r in g.right ==> Edge(l, r) in g.edges
    ensures InBlocks(g)
  {
    forall u, v, r, s | Edge(u, r) in g.edges && Edge(v, r) in g.edges && Edge(u, s) in g.edges
      ensures Edge(v, s) in g.edges
    {
      assert v in g.left && s in g.right;
    }
  }

  /** An alternating path stays in one block, so its ends are neighbours. */
  lemma {:induction false} PathInBlock(g: Graph, m: set<Edge>, layers: Layering, p: Path, level: nat)
    requires InBlocks(g) && level % 2 == 1 && Descends(g, m, layers, p, level)
    ensures Edge(Last(p), p[0]) in g.edges
    decreases level
  {
    if level > 1 {
      assert Descends(g, m, layers, p[1..], level - 1);
      assert p[1..][1..] == p[2..];
      PathInBlock(g, m, layers, p[2..], level - 2);
      assert Edge(p[1], p[0]) in g.edges && Edge(p[1], p[2]) in g.edges && Edge(Last(p), p[2]) in g.edges;
    }
  }

  /** The first guide layers reach every right node that has a neighbour. */
  lemma {:induction false} FirstLayers(g: Graph, l: Node, r: Node)
    requires g.Valid() && Edge(l, r) in g.edges
    ensures var layers := GuideLayers(g, {});
            |layers| == 2 && Descends(g, {}, layers, [r, l], 1)
  {
    var none: set<Edge> := {};
    var first := FreeOf(none, g.left);
    FreeOfMember(none, g.left);
    assert forall v :: Incident(none, v) == {};
    assert l in first;
    NextLayer(g, none, 1, first, ToSet(first));
    var (next, used) := Expand(g, none, 1, first, [], ToSet(first));
    assert Step(g, none, 1, r, l);
    assert r in used && r in next;
    assert [first][0] == first && Layers(g, none, [first], ToSet(first)) == [first, next];
    assert [r, l][1..] == [l];
  }

  lemma {:induction false} EndCounts(paths: seq<Path>, q: Path, v: Node)
    requires q in paths && q != [] && (v == q[0] || v == Last(q))
    ensures Ends(paths, v) > 0
  {
    if paths[0] != q {
      EndCounts(paths[1..], q, v);
    }
  }

  /** The first phase is maximal: one of its paths, a single edge, meets the edge between l and r. */
  lemma {:induction false} FirstPhaseMeets(g: Graph, l: Node, r: Node) returns (q: Path, w: Node)
    requires g.Valid() && Edge(l, r) in g.edges
    ensures q in Phase(g, {}) && |q| == 2 && w in q && (w == l || w == r)
  {
    var none: set<Edge> := {};
    var layers, paths := GuideLayers(g, none), Phase(g, none);
    FirstLayers(g, l, r);
    PhaseMaximal(g, none, [r, l]);
    q :| q in paths && ToSet(q) * ToSet([r, l]) != {};
    w :| w in ToSet(q) * ToSet([r, l]);
    PhaseGood(g, none);
    var i :| 0 <= i < |paths| && paths[i] == q;
    PathShape(g, none, layers, paths, {}, i);
  }

  /** So after the first phase every edge has an end in use. */
  lemma {:induction false} FirstPhaseSaturates(g: Graph, l: Node, r: Node)
    requires g.Valid() && Edge(l, r) in g.edges
    ensures var after := FlipAll({}, Phase(g, {})); Degree(after, l) > 0 || Degree(after, r) > 0
  {
    var q, w := FirstPhaseMeets(g, l, r);
    EndCounts(Phase(g, {}), q, w);
    Koenig.NothingOnce(g);
    PhaseStep(g, {});
  }

  /** Guide layers that exist lead from a free right node to a free left node of the same block. */
  lemma {:induction false} FreeNeighbours(g: Graph, m: set<Edge>) returns (l: Node, r: Node)
    requires g.Valid() && InBlocks(g) && GuideLayers(g, m) != []
    ensures Edge(l, r) in g.edges && Degree(m, l) == 0 && Degree(m, r) == 0
  {
    var layers := GuideLayers(g, m);
    GuideLayersSound(g, m);
    var top := |layers| - 1;
    r :| r in layers[top] && Degree(m, r) == 0;
    DfsSucceeds(g, m, layers, r, top, {});
    DfsDescends(g, m, layers, r, top, {});
    var p := Dfs(g, m, layers, r, top, {}).value;
    PathInBlock(g, m, layers, p, top);
    StaysBelow(g, m, layers, p, top);
    FirstLayer(g, m, layers);
    l := Last(p);
  }

  /** No guide layers are left after the first phase. */
  lemma {:induction false} SecondPhaseEmpty(g: Graph)
    requires g.Valid() && InBlocks(g)
    ensures GuideLayers(g, FlipAll({}, Phase(g, {}))) == []
  {
    var m := FlipAll({}, Phase(g, {}));
    if GuideLayers(g, m) != [] {
      var l, r := FreeNeighbours(g, m);
      FirstPhaseSaturates(g, l, r);
    }
  }

  /** On such a graph the result is a matching, and so a largest one. */
  lemma {:induction false} BlocksMatch(g: Graph)
    requires g.Valid() && InBlocks(g)
    ensures Koenig.LeftOnce(g, {}) && AlwaysStartsFree(g, {}) && IsMatching(Largest(g, {}))
    ensures forall n: set<Edge> :: IsMatching(n) && (forall e :: e in n ==> e in g.edges) ==> |n| <= |Largest(g, {})|
  {
    var none: set<Edge> := {};
    assert forall v :: Incident(none, v) == {};
    Koenig.NothingOnce(g);
    PhaseStepBounded(g, none);
    SecondPhaseEmpty(g);
    PhaseEmpty(g, FlipAll(none, Phase(g, none)));
    LargestIsMatching(g, none);
    LargestIsMaximum(g, none);
  }
}
