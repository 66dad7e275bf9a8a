/** What one phase of the matching loop keeps, and the result of the whole loop. */
module Phases {
  import opened Bytes
  import opened Edges
  import opened GuidedSearch
  import opened Paths
  import Koenig

  type Layering = seq<seq<Node>>

  /** Node-disjoint paths down from the top layer, none through a used node. */
  ghost predicate Good(g: Graph, m: set<Edge>, layers: Layering, paths: seq<Path>, used: set<Node>)
    requires layers != []
  {
    paths == [] ||
    (&& Descends(g, m, layers, paths[0], |layers| - 1)
     && ToSet(paths[0]) !! used
     && Good(g, m, layers, paths[1..], used + ToSet(paths[0])))
  }

  lemma {:induction false} CollectGood(g: Graph, m: set<Edge>, layers: Layering, starts: seq<Node>, used: set<Node>)
    requires Layered(g, m, layers)
    requires forall v :: v in starts ==> v in layers[|layers| - 1] && v !in used
    requires forall i, j :: 0 <= i < j < |starts| ==> starts[i] != starts[j]
    ensures Good(g, m, layers, Collect(g, m, layers, starts, used), used)
  {
    if starts != [] {
      var top := |layers| - 1;
      assert starts[0] in starts && forall v :: v in starts[1..] ==> v in starts;
      DfsDescends(g, m, layers, starts[0], top, used);
      var found := Dfs(g, m, layers, starts[0], top, used);
      if found.Some? {
        var p := found.value;
        StaysBelow(g, m, layers, p, top);
        forall v | v in starts[1..]
          ensures v !in p
        {
          assert v in ToSet(layers[top]);
          assert v !in Union(layers[..top]);
          assert p == [p[0]] + p[1..];
        }
        CollectGood(g, m, layers, starts[1..], used + ToSet(p));
      } else {
        CollectGood(g, m, layers, starts[1..], used);
      }
    }
  }

  lemma {:induction false} PhaseGood(g: Graph, m: set<Edge>)
    requires g.Valid() && GuideLayers(g, m) != []
    ensures Layered(g, m, GuideLayers(g, m)) && |GuideLayers(g, m)| % 2 == 0
    ensures Good(g, m, GuideLayers(g, m), Phase(g, m), {})
  {
    var layers := GuideLayers(g, m);
    GuideLayersSound(g, m);
    DistinctIndices(layers[|layers| - 1]);
    CollectGood(g, m, layers, layers[|layers| - 1], {});
  }

  // Flipping all paths of a phase ----------------------------------------------------------

  /** The edges of a path that ends at level 0. */
  function Slap(p: Path): EdgeSet {
    if p == [] then [] else PathEdges(p, |p| - 1)
  }

  ghost function FlipAll(cur: set<Edge>, paths: seq<Path>): set<Edge>
    decreases |paths|
  {
    if paths == [] then cur else FlipAll(SymDiff(cur, Slap(paths[0])), paths[1..])
  }

  /** How many paths end at v. */
  ghost function Ends(paths: seq<Path>, v: Node): nat {
    if paths == [] then 0
    else
      var p := paths[0];
      (if p != [] && v == p[0] then 1 else 0) + (if p != [] && v == Last(p) then 1 else 0) + Ends(paths[1..], v)
  }

  /** The two sets agree on every edge with a left node that is not used. */
  ghost predicate Agree(cur: set<Edge>, m: set<Edge>, used: set<Node>) {
    forall e: Edge :: e.node1 !in used ==> (e in cur <==> e in m)
  }

  lemma {:induction false} FlipOne(g: Graph, m: set<Edge>, cur: set<Edge>, layers: Layering, p: Path, used: set<Node>)
    requires Layered(g, m, layers) && Descends(g, m, layers, p, |layers| - 1)
    requires Agree(cur, m, used) && ToSet(p) !! used
    ensures var after := SymDiff(cur, PathEdges(p, |layers| - 1));
            Flipped(cur, p, |layers| - 1, after) && Agree(after, m, used + ToSet(p))
  {
    var es := PathEdges(p, |layers| - 1);
    forall e | e in es
      ensures e in cur <==> e in m
    {
      EdgesOnPath(p, |layers| - 1, e);
      assert e.node1 in ToSet(p);
    }
    FlipPath(g, m, cur, layers, p, |layers| - 1);
    forall e: Edge | e.node1 !in used + ToSet(p)
      ensures e in SymDiff(cur, es) <==> e in m
    {
      if e in es {
        EdgesOnPath(p, |layers| - 1, e);
      }
      SymDiffOutside(cur, es, e);
    }
  }

  ghost predicate Raised(cur: set<Edge>, paths: seq<Path>, final: set<Edge>) {
    |final| == |cur| + |paths| && forall v :: Degree(final, v) == Degree(cur, v) + Ends(paths, v)
  }

  /** Every path adds one edge and one to the degree of each of its ends. */
  lemma {:induction false} FlipAllDegrees(g: Graph, m: set<Edge>, cur: set<Edge>, layers: Layering, paths: seq<Path>, used: set<Node>)
    requires Layered(g, m, layers) && |layers| % 2 == 0 && Good(g, m, layers, paths, used) && Agree(cur, m, used)
    ensures Raised(cur, paths, FlipAll(cur, paths))
    decreases |paths|
  {
    if paths != [] {
      var after := FlipNext(g, m, cur, layers, paths, used);
      FlipAllDegrees(g, m, after, layers, paths[1..], used + ToSet(paths[0]));
      AddEnds(cur, paths, |layers| - 1, after, FlipAll(after, paths[1..]));
    }
  }

  lemma {:induction false} GoodHead(g: Graph, m: set<Edge>, layers: Layering, paths: seq<Path>, used: set<Node>)
    requires layers != [] && |layers| % 2 == 0 && paths != [] && Good(g, m, layers, paths, used)
    ensures Descends(g, m, layers, paths[0], |layers| - 1) && ToSet(paths[0]) !! used
    ensures Good(g, m, layers, paths[1..], used + ToSet(paths[0]))
    ensures paths[0] != [] && (|layers| - 1) % 2 == 1 && Slap(paths[0]) == PathEdges(paths[0], |layers| - 1)
  {
  }

  lemma {:induction false} FlipNext(g: Graph, m: set<Edge>, cur: set<Edge>, layers: Layering, paths: seq<Path>, used: set<Node>)
    returns (after: set<Edge>)
    requires Layered(g, m, layers) && |layers| % 2 == 0 && Good(g, m, layers, paths, used) && Agree(cur, m, used)
    requires paths != []
    ensures FlipAll(cur, paths) == FlipAll(after, paths[1..])
    ensures paths[0] != [] && (|layers| - 1) % 2 == 1 && Flipped(cur, paths[0], |layers| - 1, after)
    ensures Agree(after, m, used + ToSet(paths[0])) && Good(g, m, layers, paths[1..], used + ToSet(paths[0]))
  {
    GoodHead(g, m, layers, paths, used);
    FlipOne(g, m, cur, layers, paths[0], used);
    after := SymDiff(cur, Slap(paths[0]));
  }

  lemma {:induction false} AddEnds(cur: set<Edge>, paths: seq<Path>, level: nat, after: set<Edge>, final: set<Edge>)
    requires paths != [] && paths[0] != [] && level % 2 == 1 && Flipped(cur, paths[0], level, after)
    requires Raised(after, paths[1..], final)
    ensures Raised(cur, paths, final)
  {
  }

  /** The set of edges stays inside the graph. */
  lemma {:induction false} PathInGraph(g: Graph, m: set<Edge>, layers: Layering, p: Path, level: nat, e: Edge)
    requires Descends(g, m, layers, p, level) && e in PathEdges(p, level)
    ensures e in g.edges
    decreases level
  {
    if e != StepEdge(level, p[0], p[1]) {
      PathInGraph(g, m, layers, p[1..], level - 1, e);
    }
  }

  lemma {:induction false} FlipAllInGraph(g: Graph, m: set<Edge>, cur: set<Edge>, layers: Layering, paths: seq<Path>,
      used: set<Node>, e: Edge)
    requires layers != [] && Good(g, m, layers, paths, used)
    requires forall d :: d in cur ==> d in g.edges
    requires e in FlipAll(cur, paths)
    ensures e in g.edges
    decreases |paths|
  {
    if paths != [] {
      var es := Slap(paths[0]);
      forall d | d in SymDiff(cur, es)
        ensures d in g.edges
      {
        if d in es {
          PathInGraph(g, m, layers, paths[0], |layers| - 1, d);
        } else {
          SymDiffOutside(cur, es, d);
        }
      }
      FlipAllInGraph(g, m, SymDiff(cur, es), layers, paths[1..], used + ToSet(paths[0]), e);
    }
  }

  /** No node is an end of two paths, and the ends are a node of the top layer and a free left node. */
  lemma {:induction false} EndsOnce(g: Graph, m: set<Edge>, layers: Layering, paths: seq<Path>, used: set<Node>, v: Node)
    requires Layered(g, m, layers) && |layers| % 2 == 0 && Good(g, m, layers, paths, used)
    ensures Ends(paths, v) <= 1
    ensures Ends(paths, v) == 1 ==> v !in used
    ensures Ends(paths, v) == 1 <==> exists i :: 0 <= i < |paths| && paths[i] != [] && (v == paths[i][0] || v == Last(paths[i]))
    decreases |paths|
  {
    if paths != [] {
      var p := paths[0];
      StaysBelow(g, m, layers, p, |layers| - 1);
      assert p[0] in ToSet(p) && Last(p) in ToSet(p);
      assert Last(p) == p[1..][|p| - 2];
      EndsOnce(g, m, layers, paths[1..], used + ToSet(p), v);
      assert forall i :: 0 < i < |paths| ==> paths[i] == paths[1..][i - 1];
    }
  }

  lemma {:induction false} PathShape(g: Graph, m: set<Edge>, layers: Layering, paths: seq<Path>, used: set<Node>, i: nat)
    requires Layered(g, m, layers) && Good(g, m, layers, paths, used) && i < |paths|
    ensures Descends(g, m, layers, paths[i], |layers| - 1)
  {
    if i > 0 {
      PathShape(g, m, layers, paths[1..], used + ToSet(paths[0]), i - 1);
    }
  }

  // The matching loop ------------------------------------------------------------------

  /** One phase: the new edge set has one edge more for each path and is still at most one edge per left node. */
  lemma {:induction false} PhaseStep(g: Graph, m: set<Edge>)
    requires g.Valid() && Koenig.LeftOnce(g, m) && Phase(g, m) != []
    ensures var after := FlipAll(m, Phase(g, m));
            && |after| == |m| + |Phase(g, m)|
            && Koenig.LeftOnce(g, after)
            && (forall v :: Degree(after, v) == Degree(m, v) + Ends(Phase(g, m), v))
  {
    var layers, paths := GuideLayers(g, m), Phase(g, m);
    var after := FlipAll(m, paths);
    PhaseGood(g, m);
    FlipAllDegrees(g, m, m, layers, paths, {});
    forall e | e in after
      ensures e in g.edges
    {
      FlipAllInGraph(g, m, m, layers, paths, {}, e);
    }
    forall v | v in g.left
      ensures Degree(after, v) <= 1
    {
      LeftEnd(g, m, v);
    }
  }

  /** A left node that is an end of a path is free: it is the lower end. */
  lemma {:induction false} LeftEnd(g: Graph, m: set<Edge>, v: Node)
    requires g.Valid() && GuideLayers(g, m) != [] && v in g.left
    ensures Ends(Phase(g, m), v) <= 1 && (Ends(Phase(g, m), v) == 1 ==> Degree(m, v) == 0)
  {
    var layers, paths := GuideLayers(g, m), Phase(g, m);
    PhaseGood(g, m);
    EndsOnce(g, m, layers, paths, {}, v);
    if Ends(paths, v) == 1 {
      var i :| 0 <= i < |paths| && paths[i] != [] && (v == paths[i][0] || v == Last(paths[i]));
      PathEnds(g, m, i);
    }
  }

  /** A path leads from a right node to a free left node. */
  lemma {:induction false} PathEnds(g: Graph, m: set<Edge>, i: nat)
    requires g.Valid() && GuideLayers(g, m) != [] && i < |Phase(g, m)|
    ensures var p := Phase(g, m)[i];
            && p != [] && p[0] in g.right && p[0] !in g.left
            && Last(p) in g.left && Degree(m, Last(p)) == 0
            && Ends(Phase(g, m), p[0]) == 1
  {
    var layers, paths := GuideLayers(g, m), Phase(g, m);
    PhaseGood(g, m);
    PathShape(g, m, layers, paths, {}, i);
    DescentEnds(g, m, layers, paths[i]);
    EndsOnce(g, m, layers, paths, {}, paths[i][0]);
  }

  lemma {:induction false} DescentEnds(g: Graph, m: set<Edge>, layers: Layering, p: Path)
    requires g.Bipartite() && Layered(g, m, layers) && |layers| % 2 == 0 && Descends(g, m, layers, p, |layers| - 1)
    ensures p != [] && p[0] in g.right && p[0] !in g.left && Last(p) in g.left && Degree(m, Last(p)) == 0
  {
    StaysBelow(g, m, layers, p, |layers| - 1);
    FirstLayer(g, m, layers);
    assert p[0] in Side(g, |layers| - 1);
  }

  /**
   * LargestMatching: flips the paths of phase after phase until a phase finds none. It ends
   * because every phase adds edges of the graph.
   */
  ghost function Largest(g: Graph, m: set<Edge>): set<Edge>
    requires g.Valid() && Koenig.LeftOnce(g, m)
    decreases |g.edges| - |m|
  {
    PhaseStepBounded(g, m);
    if Phase(g, m) == [] then m else Largest(g, FlipAll(m, Phase(g, m)))
  }

  lemma {:induction false} PhaseStepBounded(g: Graph, m: set<Edge>)
    requires g.Valid() && Koenig.LeftOnce(g, m)
    ensures Phase(g, m) != [] ==>
              var after := FlipAll(m, Phase(g, m));
              Koenig.LeftOnce(g, after) && |m| < |after| <= |g.edges|
  {
    if Phase(g, m) != [] {
      PhaseStep(g, m);
      var after := FlipAll(m, Phase(g, m));
      assert after <= ToSet(g.edges);
      Subset(after, ToSet(g.edges));
      ToSetSize(g.edges);
    }
  }

  lemma {:induction false} ToSetSize<T>(s: seq<T>)
    ensures |ToSet(s)| <= |s|
  {
    if s != [] {
      ToSetSize(s[1..]);
      assert ToSet(s) == {s[0]} + ToSet(s[1..]);
    }
  }

  /** The result stays in the graph, uses each left node once, and is at least as large as any matching. */
  lemma {:induction false} LargestBounds(g: Graph, m: set<Edge>, n: set<Edge>)
    requires g.Valid() && Koenig.LeftOnce(g, m)
    requires IsMatching(n) && forall e :: e in n ==> e in g.edges
    ensures Koenig.LeftOnce(g, Largest(g, m)) && |n| <= |Largest(g, m)|
    decreases |g.edges| - |m|
  {
    PhaseStepBounded(g, m);
    if Phase(g, m) == [] {
      PhaseEmpty(g, m);
      GuideLayersSound(g, m);
      var z :| DeadEnd(g, m, z);
      Koenig.DeadEndOptimal(g, m, z, n);
    } else {
      LargestBounds(g, FlipAll(m, Phase(g, m)), n);
    }
  }

  /** Whenever the result is a matching, it is a largest one. */
  lemma {:induction false} LargestIsMaximum(g: Graph, m: set<Edge>)
    requires g.Valid() && Koenig.LeftOnce(g, m) && IsMatching(Largest(g, m))
    ensures forall e :: e in Largest(g, m) ==> e in g.edges
    ensures forall n: set<Edge> :: IsMatching(n) && (forall e :: e in n ==> e in g.edges) ==> |n| <= |Largest(g, m)|
  {
    forall n: set<Edge> | IsMatching(n) && (forall e :: e in n ==> e in g.edges)
      ensures |n| <= |Largest(g, m)|
    {
      LargestBounds(g, m, n);
    }
    var none: set<Edge> := {};
    assert forall v :: Incident(none, v) == {};
    LargestBounds(g, m, none);
  }

  // When the result is a matching --------------------------------------------------------

  /** Every path starts at a free right node: the test that the last guide layer leaves out. */
  ghost predicate StartsFree(m: set<Edge>, paths: seq<Path>) {
    forall i :: 0 <= i < |paths| && paths[i] != [] ==> Degree(m, paths[i][0]) == 0
  }

  /** A phase keeps the matching property exactly when all its paths start at free right nodes. */
  lemma {:induction false} PhaseMatching(g: Graph, m: set<Edge>)
    requires g.Valid() && Koenig.LeftOnce(g, m) && IsMatching(m) && Phase(g, m) != []
    ensures IsMatching(FlipAll(m, Phase(g, m))) <==> StartsFree(m, Phase(g, m))
  {
    var layers, paths := GuideLayers(g, m), Phase(g, m);
    var after := FlipAll(m, paths);
    PhaseStep(g, m);
    PhaseGood(g, m);
    if StartsFree(m, paths) {
      forall v
        ensures Degree(after, v) <= 1
      {
        EndsOnce(g, m, layers, paths, {}, v);
        if Ends(paths, v) == 1 {
          var i :| 0 <= i < |paths| && paths[i] != [] && (v == paths[i][0] || v == Last(paths[i]));
          PathEnds(g, m, i);
        }
        assert Degree(m, v) <= 1;
      }
    } else {
      var i :| 0 <= i < |paths| && paths[i] != [] && Degree(m, paths[i][0]) != 0;
      PathEnds(g, m, i);
      assert Degree(after, paths[i][0]) >= 2;
    }
  }

  ghost predicate AlwaysStartsFree(g: Graph, m: set<Edge>)
    requires g.Valid() && Koenig.LeftOnce(g, m)
    decreases |g.edges| - |m|
  {
    PhaseStepBounded(g, m);
    Phase(g, m) != [] ==> StartsFree(m, Phase(g, m)) && AlwaysStartsFree(g, FlipAll(m, Phase(g, m)))
  }

  /** Degrees never fall, so a node that is used twice stays used twice. */
  lemma {:induction false} LargestDegrees(g: Graph, m: set<Edge>, v: Node)
    requires g.Valid() && Koenig.LeftOnce(g, m)
    ensures Degree(Largest(g, m), v) >= Degree(m, v)
    decreases |g.edges| - |m|
  {
    PhaseStepBounded(g, m);
    if Phase(g, m) != [] {
      PhaseStep(g, m);
      LargestDegrees(g, FlipAll(m, Phase(g, m)), v);
    }
  }

  /** The result is a matching exactly when every path of every phase starts at a free right node. */
  lemma {:induction false} LargestIsMatching(g: Graph, m: set<Edge>)
    requires g.Valid() && Koenig.LeftOnce(g, m) && IsMatching(m)
    ensures IsMatching(Largest(g, m)) <==> AlwaysStartsFree(g, m)
    decreases |g.edges| - |m|
  {
    PhaseStepBounded(g, m);
    if Phase(g, m) != [] {
      var after := FlipAll(m, Phase(g, m));
      PhaseMatching(g, m);
      if IsMatching(after) {
        LargestIsMatching(g, after);
      } else {
        var v :| Degree(after, v) > 1;
        LargestDegrees(g, after, v);
      }
    }
  }
}
