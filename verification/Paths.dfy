/** The depth-first search for disjoint alternating paths, and what flipping them does. */
module Paths {
  import opened Bytes
  import opened Edges
  import opened GuidedSearch

  type Path = seq<Node>

  /** The edge between a node of a level and the node below it. */
  function StepEdge(level: nat, v: Node, u: Node): Edge {
    if level % 2 == 1 then Edge(u, v) else Edge(v, u)
  }

  /** The edges of a path that starts at the given level and goes down. */
  function PathEdges(p: Path, level: nat): EdgeSet {
    if |p| < 2 || level == 0 then [] else [StepEdge(level, p[0], p[1])] + PathEdges(p[1..], level - 1)
  }

  // The search --------------------------------------------------------------------------

  /** findDisjointSLAPHelper: a path of unused nodes from v down to level 0. */
  ghost function Dfs(g: Graph, m: set<Edge>, layers: seq<seq<Node>>, v: Node, level: nat, used: set<Node>): Option<Path>
    requires level < |layers|
    decreases level, 0
  {
    if level == 0 then Some([v]) else Try(g, m, layers, v, level, used + {v}, layers[level - 1])
  }

  ghost function Try(g: Graph, m: set<Edge>, layers: seq<seq<Node>>, v: Node, level: nat, used: set<Node>,
                     candidates: seq<Node>): Option<Path>
    requires 0 < level < |layers|
    decreases level - 1, |candidates| + 1
  {
    if candidates == [] then None
    else
      var u := candidates[0];
      var found := if u !in used && Step(g, m, level, v, u) then Dfs(g, m, layers, u, level - 1, used) else None;
      if found.Some? then Some([v] + found.value) else Try(g, m, layers, v, level, used, candidates[1..])
  }

  /** maximalDisjointSLAPCollection: the paths found from the given starts, each disjoint from those before. */
  ghost function Collect(g: Graph, m: set<Edge>, layers: seq<seq<Node>>, starts: seq<Node>, used: set<Node>): seq<Path>
    requires layers != []
  {
    if starts == [] then []
    else
      var found := Dfs(g, m, layers, starts[0], |layers| - 1, used);
      if found.Some? then [found.value] + Collect(g, m, layers, starts[1..], used + ToSet(found.value))
      else Collect(g, m, layers, starts[1..], used)
  }

  ghost function Phase(g: Graph, m: set<Edge>): seq<Path> {
    var layers := GuideLayers(g, m);
    if layers == [] then [] else Collect(g, m, layers, layers[|layers| - 1], {})
  }

  // What a found path is -----------------------------------------------------------------

  /** A path down the layers that takes only allowed steps. */
  ghost predicate Descends(g: Graph, m: set<Edge>, layers: seq<seq<Node>>, p: Path, level: nat)
  {
    && |p| == level + 1 && level < |layers| && p[0] in layers[level]
    && (level > 0 ==> Step(g, m, level, p[0], p[1]) && Descends(g, m, layers, p[1..], level - 1))
  }

  lemma {:induction false} DfsDescends(g: Graph, m: set<Edge>, layers: seq<seq<Node>>, v: Node, level: nat, used: set<Node>)
    requires level < |layers| && v in layers[level]
    ensures var p := Dfs(g, m, layers, v, level, used);
            p.Some? ==> Descends(g, m, layers, p.value, level) && p.value[0] == v && ToSet(p.value) * (used - {v}) == {}
    decreases level, 0
  {
    if level > 0 {
      TryDescends(g, m, layers, v, level, used + {v}, layers[level - 1]);
    }
  }

  lemma {:induction false} TryDescends(g: Graph, m: set<Edge>, layers: seq<seq<Node>>, v: Node, level: nat, used: set<Node>,
      candidates: seq<Node>)
    requires 0 < level < |layers| && v in layers[level] && v in used
    requires forall u :: u in candidates ==> u in layers[level - 1]
    ensures var p := Try(g, m, layers, v, level, used, candidates);
            p.Some? ==> Descends(g, m, layers, p.value, level) && p.value[0] == v && ToSet(p.value) * (used - {v}) == {}
    decreases level - 1, |candidates| + 1
  {
    if candidates != [] {
      var u := candidates[0];
      assert u in candidates && forall c :: c in candidates[1..] ==> c in candidates;
      if u !in used && Step(g, m, level, v, u) {
        DfsDescends(g, m, layers, u, level - 1, used);
        var p := Dfs(g, m, layers, u, level - 1, used);
        if p.Some? {
          assert ([v] + p.value)[1..] == p.value;
          assert ToSet([v] + p.value) == {v} + ToSet(p.value);
        }
      }
      TryDescends(g, m, layers, v, level, used, candidates[1..]);
    }
  }

  /** With nothing used below, the search succeeds at the first allowed step of every level. */
  lemma {:induction false} DfsSucceeds(g: Graph, m: set<Edge>, layers: seq<seq<Node>>, v: Node, level: nat, used: set<Node>)
    requires Layered(g, m, layers) && level < |layers| && v in layers[level]
    requires Union(layers[..level]) !! used
    ensures Dfs(g, m, layers, v, level, used).Some?
    decreases level, 0
  {
    if level > 0 {
      LayeredPrefix(g, m, layers, level);
      var u :| u in layers[level - 1] && Step(g, m, level, v, u);
      TrySucceeds(g, m, layers, v, level, used + {v}, layers[level - 1], u);
    }
  }

  lemma {:induction false} TrySucceeds(g: Graph, m: set<Edge>, layers: seq<seq<Node>>, v: Node, level: nat, used: set<Node>,
      candidates: seq<Node>, u: Node)
    requires Layered(g, m, layers) && 0 < level < |layers|
    requires Union(layers[..level]) !! used
    requires forall c :: c in candidates ==> c in layers[level - 1]
    requires u in candidates && Step(g, m, level, v, u)
    ensures Try(g, m, layers, v, level, used, candidates).Some?
    decreases level - 1, |candidates| + 1
  {
    var c := candidates[0];
    assert c in candidates && forall d :: d in candidates[1..] ==> d in candidates;
    UnionPrefix(layers, level);
    if Step(g, m, level, v, c) {
      assert c in ToSet(layers[level - 1]) && c in Union(layers[..level]) && c !in used;
      DfsSucceeds(g, m, layers, c, level - 1, used);
    } else {
      TrySucceeds(g, m, layers, v, level, used, candidates[1..], u);
    }
  }

  lemma {:induction false} UnionPrefix(layers: seq<seq<Node>>, k: nat)
    requires 0 < k <= |layers|
    ensures Union(layers[..k]) == Union(layers[..k - 1]) + ToSet(layers[k - 1])
  {
    assert layers[..k][..k - 1] == layers[..k - 1];
  }

  /** Each layer is on top of the one before and new. */
  lemma {:induction false} LayeredPrefix(g: Graph, m: set<Edge>, layers: seq<seq<Node>>, k: nat)
    requires Layered(g, m, layers) && 0 < k < |layers|
    ensures OnTop(g, m, k, layers[k - 1], layers[k]) && Union(layers[..k]) !! ToSet(layers[k])
    ensures Layered(g, m, layers[..k + 1])
  {
    if k == |layers| - 1 {
      assert layers[..k + 1] == layers;
    } else {
      var shorter := layers[..|layers| - 1];
      LayeredPrefix(g, m, shorter, k);
      assert shorter[..k] == layers[..k] && shorter[..k + 1] == layers[..k + 1];
    }
  }

  /** Non-empty guide layers always give a path. */
  lemma {:induction false} PhaseEmpty(g: Graph, m: set<Edge>)
    requires g.Valid()
    ensures Phase(g, m) == [] <==> GuideLayers(g, m) == []
  {
    var layers := GuideLayers(g, m);
    if layers != [] {
      GuideLayersSound(g, m);
      var top := layers[|layers| - 1];
      assert top != [];
      DfsSucceeds(g, m, layers, top[0], |layers| - 1, {});
    }
  }

  // Completeness ------------------------------------------------------------------------

  /** Backtracking finds a path from v whenever one exists below it that avoids the used nodes. */
  lemma {:induction false} DfsComplete(g: Graph, m: set<Edge>, layers: seq<seq<Node>>, q: Path, level: nat, used: set<Node>)
    requires Layered(g, m, layers) && Descends(g, m, layers, q, level) && ToSet(q[1..]) !! used
    ensures Dfs(g, m, layers, q[0], level, used).Some?
    decreases level, 0
  {
    if level > 0 {
      StaysBelow(g, m, layers, q, level);
      TryComplete(g, m, layers, q, level, used + {q[0]}, layers[level - 1]);
    }
  }

  lemma {:induction false} TryComplete(g: Graph, m: set<Edge>, layers: seq<seq<Node>>, q: Path, level: nat, used: set<Node>,
      candidates: seq<Node>)
    requires Layered(g, m, layers) && 0 < level < |layers| && Descends(g, m, layers, q, level)
    requires ToSet(q[1..]) !! used && q[1] in candidates
    ensures Try(g, m, layers, q[0], level, used, candidates).Some?
    decreases level - 1, |candidates| + 1
  {
    assert q[1] in q[1..];
    if candidates[0] == q[1] {
      TailDisjoint(q[1..], used);
      DfsComplete(g, m, layers, q[1..], level - 1, used);
    } else {
      TryComplete(g, m, layers, q, level, used, candidates[1..]);
    }
  }

  ghost predicate Meets(paths: seq<Path>, q: Path) {
    exists p :: p in paths && ToSet(p) * ToSet(q) != {}
  }

  lemma {:induction false} TailDisjoint(q: Path, used: set<Node>)
    requires q != [] && ToSet(q) !! used
    ensures ToSet(q[1..]) !! used
  {
    forall v | v in ToSet(q[1..])
      ensures v !in used
    {
      assert v in ToSet(q);
    }
  }

  /** The path found from the start of q is one of those collected. */
  lemma {:induction false} CollectMeets(g: Graph, m: set<Edge>, layers: seq<seq<Node>>, starts: seq<Node>, used: set<Node>,
      q: Path)
    requires Layered(g, m, layers) && Descends(g, m, layers, q, |layers| - 1)
    requires starts != [] && starts[0] == q[0] && ToSet(q) !! used
    ensures Meets(Collect(g, m, layers, starts, used), q)
  {
    var top := |layers| - 1;
    TailDisjoint(q, used);
    DfsComplete(g, m, layers, q, top, used);
    DfsDescends(g, m, layers, q[0], top, used);
    var p := Dfs(g, m, layers, q[0], top, used).value;
    assert p[0] in ToSet(p) * ToSet(q);
    assert p in Collect(g, m, layers, starts, used);
  }

  lemma {:induction false} DisjointBoth(q: set<Node>, a: set<Node>, b: set<Node>)
    requires q !! a && b * q == {}
    ensures q !! (a + b)
  {
    forall v | v in q
      ensures v !in b
    {
      assert v !in b * q;
    }
  }

  lemma {:induction false} CollectMaximal(g: Graph, m: set<Edge>, layers: seq<seq<Node>>, starts: seq<Node>, used: set<Node>,
      q: Path)
    requires Layered(g, m, layers) && Descends(g, m, layers, q, |layers| - 1)
    requires q[0] in starts && ToSet(q) !! used && forall v :: v in starts ==> v in layers[|layers| - 1]
    ensures Meets(Collect(g, m, layers, starts, used), q)
  {
    var top := |layers| - 1;
    var found := Dfs(g, m, layers, starts[0], top, used);
    assert starts[0] in starts && forall v :: v in starts[1..] ==> v in starts;
    if starts[0] == q[0] {
      CollectMeets(g, m, layers, starts, used, q);
    } else if found.Some? {
      var rest := Collect(g, m, layers, starts[1..], used + ToSet(found.value));
      assert found.value in [found.value] + rest;
      if ToSet(found.value) * ToSet(q) == {} {
        assert q[0] in starts[1..];
        DisjointBoth(ToSet(q), used, ToSet(found.value));
        CollectMaximal(g, m, layers, starts[1..], used + ToSet(found.value), q);
        assert forall p :: p in rest ==> p in [found.value] + rest;
      }
    } else {
      assert q[0] in starts[1..];
      CollectMaximal(g, m, layers, starts[1..], used, q);
    }
  }

  /** A phase is maximal: every path down the guide layers meets one of its paths. */
  lemma {:induction false} PhaseMaximal(g: Graph, m: set<Edge>, q: Path)
    requires g.Valid() && GuideLayers(g, m) != []
    requires Descends(g, m, GuideLayers(g, m), q, |GuideLayers(g, m)| - 1)
    ensures Meets(Phase(g, m), q)
  {
    GuideLayersSound(g, m);
    CollectMaximal(g, m, GuideLayers(g, m), GuideLayers(g, m)[|GuideLayers(g, m)| - 1], {}, q);
  }

  // Shortest paths ----------------------------------------------------------------------

  /** A walk by alternating steps from a free left node. */
  ghost predicate Alternates(g: Graph, m: set<Edge>, w: Path) {
    && w != [] && w[0] in g.left && Degree(m, w[0]) == 0
    && forall i :: 0 < i < |w| ==> Step(g, m, i, w[i], w[i - 1])
  }

  lemma {:induction false} WalkSides(g: Graph, m: set<Edge>, w: Path, i: nat)
    requires g.Bipartite() && Alternates(g, m, w) && i < |w|
    ensures w[i] in Side(g, i)
  {
    if i > 0 {
      WalkSides(g, m, w, i - 1);
    }
  }

  lemma {:induction false} UnionIndex(layers: seq<seq<Node>>, u: Node) returns (j: nat)
    requires u in Union(layers)
    ensures j < |layers| && u in layers[j]
  {
    var n := |layers|;
    if u in layers[n - 1] {
      j := n - 1;
    } else {
      j := UnionIndex(layers[..n - 1], u);
    }
  }

  lemma {:induction false} UnionGrows(layers: seq<seq<Node>>, a: nat, b: nat)
    requires a <= b <= |layers|
    ensures Union(layers[..a]) <= Union(layers[..b])
  {
    if a < b {
      UnionGrows(layers, a, b - 1);
      assert layers[..b][..b - 1] == layers[..b - 1];
    }
  }

  lemma {:induction false} ExploredAt(g: Graph, m: set<Edge>, layers: seq<seq<Node>>, j: nat)
    requires Explored(g, m, layers) && 0 < j < |layers|
    ensures Closed(g, m, j, layers[j - 1], Union(layers[..j + 1])) && (j % 2 == 1 ==> !HasFree(m, layers[j]))
    decreases |layers|
  {
    var n := |layers|;
    if j < n - 1 {
      ExploredAt(g, m, layers[..n - 1], j);
      assert layers[..n - 1][..j + 1] == layers[..j + 1];
    } else {
      assert layers[..j + 1] == layers;
    }
  }

  lemma {:induction false} SameSide(g: Graph, m: set<Edge>, i: nat, j: nat, u: Node, v: Node)
    requires g.Bipartite() && u in Side(g, i) && u in Side(g, j)
    ensures Side(g, i + 1) == Side(g, j + 1) && (Step(g, m, i + 1, v, u) <==> Step(g, m, j + 1, v, u))
  {
  }

  /** A step from the first i layers ends in the first i + 1 layers. */
  lemma {:induction false} StepInLayers(g: Graph, m: set<Edge>, layers: seq<seq<Node>>, i: nat, u: Node, v: Node)
    requires g.Bipartite() && Layered(g, m, layers) && Explored(g, m, layers) && 0 < i < |layers|
    requires u in Union(layers[..i]) && u in Side(g, i - 1) && v in Side(g, i) && Step(g, m, i, v, u)
    ensures v in Union(layers[..i + 1])
  {
    var j := UnionIndex(layers[..i], u);
    hide Layered, Explored, Union;
    LayerSide(g, m, layers, j, u);
    SameSide(g, m, i - 1, j, u, v);
    hide Side, Step;
    ExploredAt(g, m, layers, j + 1);
    assert v in Union(layers[..j + 2]);
    UnionGrows(layers, j + 2, i + 1);
  }

  /** The k-th node of a walk lies in one of the layers up to the k-th. */
  lemma {:induction false} WalkInLayers(g: Graph, m: set<Edge>, layers: seq<seq<Node>>, w: Path, i: nat)
    requires g.Bipartite() && Layered(g, m, layers) && Explored(g, m, layers) && Alternates(g, m, w) && i < |w|
    requires i < |layers|
    ensures w[i] in Union(layers[..i + 1])
  {
    if i == 0 {
      FirstIsFree(g, m, layers);
      assert layers[..1][..0] == [] && Union(layers[..1][..0]) == {};
    } else {
      WalkInLayers(g, m, layers, w, i - 1);
      WalkSides(g, m, w, i - 1);
      WalkSides(g, m, w, i);
      StepInLayers(g, m, layers, i, w[i - 1], w[i]);
    }
  }

  lemma {:induction false} FirstIsFree(g: Graph, m: set<Edge>, layers: seq<seq<Node>>)
    requires Layered(g, m, layers)
    ensures forall v :: v in layers[0] <==> v in g.left && Degree(m, v) == 0
  {
    if |layers| > 1 {
      FirstIsFree(g, m, layers[..|layers| - 1]);
    }
  }

  lemma {:induction false} LayerSide(g: Graph, m: set<Edge>, layers: seq<seq<Node>>, j: nat, v: Node)
    requires Layered(g, m, layers) && j < |layers| && v in layers[j]
    ensures v in Side(g, j)
  {
    if j == 0 {
      FirstIsFree(g, m, layers);
    } else {
      LayeredPrefix(g, m, layers, j);
    }
  }

  lemma {:induction false} WalkInDeadEnd(g: Graph, m: set<Edge>, z: set<Node>, w: Path, i: nat)
    requires g.Bipartite() && DeadEnd(g, m, z) && Alternates(g, m, w) && i < |w|
    ensures w[i] in z
  {
    if i > 0 {
      WalkInDeadEnd(g, m, z, w, i - 1);
    }
  }

  /**
   * The paths of a phase, which have as many nodes as there are guide layers, are shortest: no walk by alternating
   * steps from a free left node to a free right node is shorter, and where there is one there are guide layers.
   */
  lemma {:induction false} PhaseShortest(g: Graph, m: set<Edge>, w: Path)
    requires g.Valid() && Alternates(g, m, w) && w[|w| - 1] in g.right && Degree(m, w[|w| - 1]) == 0
    ensures GuideLayers(g, m) != [] && |w| >= |GuideLayers(g, m)|
  {
    var r, k := GuideLayers(g, m), |w| - 1;
    GuideLayersSound(g, m);
    WalkSides(g, m, w, k);
    if r == [] {
      var z :| DeadEnd(g, m, z);
      WalkInDeadEnd(g, m, z, w, k);
    } else if |w| < |r| {
      var layers := r[..|r| - 1];
      WalkInLayers(g, m, layers, w, k);
      var j := UnionIndex(layers[..k + 1], w[k]);
      LayerSide(g, m, layers, j, w[k]);
      ExploredAt(g, m, layers, j);
    }
  }

  // Flipping one path --------------------------------------------------------------------

  function Last(p: Path): Node
    requires p != []
  {
    p[|p| - 1]
  }

  lemma {:induction false} EdgesOnPath(p: Path, level: nat, e: Edge)
    requires e in PathEdges(p, level)
    ensures e.node1 in p && e.node2 in p
  {
    var first := StepEdge(level, p[0], p[1]);
    if e != first {
      EdgesOnPath(p[1..], level - 1, e);
    }
  }

  /** Below its first node a descending path stays below that layer; it ends at level 0. */
  lemma {:induction false} StaysBelow(g: Graph, m: set<Edge>, layers: seq<seq<Node>>, p: Path, level: nat)
    requires Layered(g, m, layers) && Descends(g, m, layers, p, level)
    ensures ToSet(p[1..]) <= Union(layers[..level]) && p[0] !in p[1..]
    ensures Last(p) in layers[0]
  {
    if level > 0 {
      StaysBelow(g, m, layers, p[1..], level - 1);
      UnionPrefix(layers, level);
      LayeredPrefix(g, m, layers, level);
      assert forall v :: v in p[1..] ==> v == p[1] || v in p[1..][1..];
      assert p[1] in ToSet(layers[level - 1]) && p[0] in ToSet(layers[level]);
    }
  }

  /** The edges of a path are in the graph, and toggling them changes degrees at the two ends only. */
  ghost predicate Flipped(cur: set<Edge>, p: Path, level: nat, after: set<Edge>)
    requires p != []
  {
    && |after| == |cur| + level % 2
    && (forall v :: Degree(after, v) == Degree(cur, v)
                      + (if v != p[0] then 0 else if level % 2 == 1 then 1 else -1)
                      + (if v == Last(p) then 1 else 0))
  }

  lemma {:induction false} FlipPath(g: Graph, m: set<Edge>, cur: set<Edge>, layers: seq<seq<Node>>, p: Path, level: nat)
    requires Layered(g, m, layers) && Descends(g, m, layers, p, level)
    requires forall e :: e in PathEdges(p, level) ==> (e in cur <==> e in m)
    ensures Flipped(cur, p, level, SymDiff(cur, PathEdges(p, level)))
    decreases level
  {
    if level > 0 {
      var e, rest := StepEdge(level, p[0], p[1]), PathEdges(p[1..], level - 1);
      StaysBelow(g, m, layers, p, level);
      assert p[0] != p[1];
      assert PathEdges(p, level) == [e] + rest;
      forall d | d in rest
        ensures d in Toggle(cur, e) <==> d in m
      {
        EdgesOnPath(p[1..], level - 1, d);
        assert d in PathEdges(p, level);
      }
      FlipPath(g, m, Toggle(cur, e), layers, p[1..], level - 1);
      assert e in PathEdges(p, level);
      FlipFirst(cur, e, p, level, SymDiff(Toggle(cur, e), rest));
      assert SymDiff(cur, [e] + rest) == SymDiff(Toggle(cur, e), rest);
    }
  }

  lemma {:induction false} FlipFirst(cur: set<Edge>, e: Edge, p: Path, level: nat, after: set<Edge>)
    requires |p| > 1 && level > 0 && p[0] != p[1] && e == StepEdge(level, p[0], p[1])
    requires e in cur <==> level % 2 == 0
    requires Flipped(Toggle(cur, e), p[1..], level - 1, after)
    ensures Flipped(cur, p, level, after)
  {
    ToggleDegree(cur, e, p[0]);
    assert Last(p) == Last(p[1..]);
    forall v
      ensures Degree(after, v) == Degree(cur, v)
                + (if v != p[0] then 0 else if level % 2 == 1 then 1 else -1) + (if v == Last(p) then 1 else 0)
    {
      ToggleDegree(cur, e, v);
    }
  }
}
