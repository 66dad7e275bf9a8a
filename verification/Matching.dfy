/** The matching algorithm of goraph as it runs, bipartitegraphmatching.go. */
module Matching {
  import opened Bytes
  import opened Edges
  import opened GuidedSearch
  import opened Paths
  import opened Phases
  import Koenig

  lemma {:induction false} FreeDegree(m: EdgeSet, v: Node)
    ensures Free(m, v) <==> Degree(ToSet(m), v) == 0
  {
    DegreeZero(ToSet(m), v);
    assert forall e :: e in m <==> e in ToSet(m);
  }

  /** The test of both loops: the edge exists and is outside (odd level) or inside (even level) the matching. */
  lemma {:induction false} StepTest(g: Graph, m: EdgeSet, level: nat, v: Node, u: Node)
    requires g.Bipartite() && level > 0 && v in Side(g, level) && u in Side(g, level - 1)
    ensures var found := FindByNodes(g.edges, v, u);
            Step(g, ToSet(m), level, v, u) <==> found.Some? && ((found.value in m) != (level % 2 == 1))
  {
  }

  ghost predicate OnSide(g: Graph, layer: seq<Node>, level: nat) {
    forall v :: v in layer ==> v in Side(g, level)
  }

  // Guide layers ------------------------------------------------------------------------

  /** The two inner loops that build one layer from the nodes of the last one. */
  method nextLayer(g: Graph, matching: EdgeSet, level: nat, lastLayer: seq<Node>, used0: set<Node>)
    returns (currentLayer: seq<Node>, used: set<Node>)
    requires g.Bipartite() && level > 0 && OnSide(g, lastLayer, level - 1)
    ensures (currentLayer, used) == Expand(g, ToSet(matching), level, lastLayer, [], used0)
  {
    ghost var m := ToSet(matching);
    currentLayer, used := [], used0;
    for i := 0 to |lastLayer|
      invariant Expand(g, m, level, lastLayer[i..], currentLayer, used) == Expand(g, m, level, lastLayer, [], used0)
    {
      var u, candidates := lastLayer[i], Side(g, level);
      assert lastLayer[i..][1..] == lastLayer[i + 1..];
      ghost var scanned := Scan(g, m, level, u, candidates, currentLayer, used);
      for j := 0 to |candidates|
        invariant Scan(g, m, level, u, candidates[j..], currentLayer, used) == scanned
      {
        var v := candidates[j];
        assert candidates[j..][1..] == candidates[j + 1..];
        StepTest(g, matching, level, v, u);
        var edge := FindByNodes(g.edges, v, u);
        if v !in used && edge.Some? && ((edge.value in matching) != (level % 2 == 1)) {
          currentLayer := currentLayer + [v];
          used := used + {v};
        }
      }
    }
  }

  method createSLAPGuideLayers(g: Graph, matching: EdgeSet) returns (guideLayers: seq<seq<Node>>)
    requires g.Valid()
    ensures guideLayers == GuideLayers(g, ToSet(matching))
  {
    ghost var m := ToSet(matching);
    var currentLayer, used := [], {};
    for i := 0 to |g.left|
      invariant currentLayer == FreeOf(m, g.left[..i]) && used == ToSet(currentLayer)
    {
      var node := g.left[i];
      assert g.left[..i + 1][..i] == g.left[..i];
      FreeDegree(matching, node);
      if Free(matching, node) {
        used := used + {node};
        currentLayer := currentLayer + [node];
      }
    }
    assert g.left[..|g.left|] == g.left;
    FreeOfMember(m, g.left);
    if currentLayer == [] {
      return [];
    }
    guideLayers := moreLayers(g, matching, currentLayer, used);
  }

  /** The outer loop of createSLAPGuideLayers. */
  method moreLayers(g: Graph, matching: EdgeSet, first: seq<Node>, used0: set<Node>) returns (guideLayers: seq<seq<Node>>)
    requires g.Valid() && used0 == ToSet(first) && used0 <= g.Nodes()
    requires forall v :: v in first ==> v in g.left
    ensures guideLayers == Layers(g, ToSet(matching), [first], used0)
  {
    ghost var m := ToSet(matching);
    guideLayers := [first];
    var used, done := used0, false;
    while !done
      invariant used <= g.Nodes() && guideLayers != []
      invariant OnSide(g, guideLayers[|guideLayers| - 1], |guideLayers| - 1)
      invariant if done then guideLayers == Layers(g, m, [first], used0)
                else Layers(g, m, guideLayers, used) == Layers(g, m, [first], used0)
      decreases !done, g.Nodes() - used
    {
      var level := |guideLayers|;
      var lastLayer := guideLayers[level - 1];
      NextLayer(g, m, level, lastLayer, used);
      var currentLayer, used' := nextLayer(g, matching, level, lastLayer, used);
      if currentLayer == [] {
        return [];
      }
      assert currentLayer[0] in ToSet(currentLayer) && currentLayer[0] !in used;
      done := level % 2 == 1 && exists v :: v in currentLayer && Free(matching, v);
      DoneTest(matching, currentLayer);
      guideLayers, used := guideLayers + [currentLayer], used';
    }
  }

  lemma {:induction false} DoneTest(matching: EdgeSet, layer: seq<Node>)
    ensures HasFree(ToSet(matching), layer) <==> exists v :: v in layer && Free(matching, v)
  {
    forall v | v in layer
      ensures Free(matching, v) <==> Degree(ToSet(matching), v) == 0
    {
      FreeDegree(matching, v);
    }
  }

  // The search -------------------------------------------------------------------------

  /**
   * The marks of the shared map are handed in and back. Going down marks the node; a dead
   * end takes the mark away again; the edges of the path are appended on the way down.
   */
  method findDisjointSLAPHelper(g: Graph, currentNode: Node, currentSLAP: EdgeSet, currentLevel: nat,
                                matching: EdgeSet, guideLayers: seq<seq<Node>>, used0: set<Node>)
    returns (slap: EdgeSet, found: bool, used: set<Node>)
    requires g.Valid() && currentLevel < |guideLayers| && Sided(g, guideLayers)
    requires currentNode in guideLayers[currentLevel] && currentNode !in used0
    ensures var p := Dfs(g, ToSet(matching), guideLayers, currentNode, currentLevel, used0);
            && found == p.Some?
            && (found ==> slap == currentSLAP + PathEdges(p.value, currentLevel) && used == used0 + ToSet(p.value))
            && (!found ==> used == used0)
    decreases currentLevel
  {
    ghost var m := ToSet(matching);
    used := used0 + {currentNode};
    if currentLevel == 0 {
      return currentSLAP, true, used;
    }
    var candidates := guideLayers[currentLevel - 1];
    ghost var goal := Dfs(g, m, guideLayers, currentNode, currentLevel, used0);
    for i := 0 to |candidates|
      invariant used == used0 + {currentNode}
      invariant Try(g, m, guideLayers, currentNode, currentLevel, used, candidates[i..]) == goal
    {
      var nextNode := candidates[i];
      assert candidates[i..][0] == nextNode && candidates[i..][1..] == candidates[i + 1..];
      if nextNode in used {
        continue;
      }
      SideOf(g, guideLayers, currentLevel, currentNode);
      SideOf(g, guideLayers, currentLevel - 1, nextNode);
      StepTest(g, matching, currentLevel, currentNode, nextNode);
      var edge := FindByNodes(g.edges, currentNode, nextNode);
      if edge.None? {
        continue;
      }
      if (edge.value in matching) == (currentLevel % 2 == 1) {
        continue;
      }
      var more, ok, marks := findDisjointSLAPHelper(
        g, nextNode, currentSLAP + [edge.value], currentLevel - 1, matching, guideLayers, used);
      if ok {
        ghost var p := Dfs(g, m, guideLayers, nextNode, currentLevel - 1, used).value;
        PathCons(g, m, guideLayers, currentNode, p, currentLevel, edge.value, nextNode, used);
        ConcatCons(currentSLAP, edge.value, PathEdges(p, currentLevel - 1));
        return more, true, marks;
      }
    }
    used := used - {currentNode};
    assert used == used0;
    return [], false, used;
  }

  ghost predicate Sided(g: Graph, layers: seq<seq<Node>>) {
    forall k :: 0 <= k < |layers| ==> OnSide(g, layers[k], k)
  }

  lemma {:induction false} SideOf(g: Graph, layers: seq<seq<Node>>, k: nat, v: Node)
    requires Sided(g, layers) && k < |layers| && v in layers[k]
    ensures v in Side(g, k)
  {
    assert OnSide(g, layers[k], k);
  }

  lemma {:induction false} ConcatCons<T>(a: seq<T>, x: T, b: seq<T>)
    ensures (a + [x]) + b == a + ([x] + b)
  {
  }

  lemma {:induction false} PathCons(g: Graph, m: set<Edge>, layers: seq<seq<Node>>, v: Node, p: Path, level: nat,
      e: Edge, u: Node, used: set<Node>)
    requires 0 < level < |layers| && u in layers[level - 1] && v in used
    requires Dfs(g, m, layers, u, level - 1, used) == Some(p) && Step(g, m, level, v, u)
    requires g.Bipartite() && e in g.edges && (e == Edge(v, u) || e == Edge(u, v)) && v in Side(g, level)
    ensures PathEdges([v] + p, level) == [e] + PathEdges(p, level - 1)
    ensures used + ToSet(p) == used - {v} + ToSet([v] + p)
  {
    DfsDescends(g, m, layers, u, level - 1, used);
    assert ([v] + p)[1..] == p && ([v] + p)[1] == u;
    assert ToSet([v] + p) == {v} + ToSet(p);
    assert e == StepEdge(level, v, u);
  }

  lemma {:induction false} LayeredSided(g: Graph, m: set<Edge>, layers: seq<seq<Node>>)
    requires Layered(g, m, layers)
    ensures Sided(g, layers)
  {
    FirstLayer(g, m, layers);
    forall k | 0 <= k < |layers|
      ensures OnSide(g, layers[k], k)
    {
      if k > 0 {
        LayeredPrefix(g, m, layers, k);
      }
    }
  }

  /** A path found from one start marks no other node of the top layer. */
  lemma {:induction false} TopUnused(g: Graph, m: set<Edge>, layers: seq<seq<Node>>, i: nat, used: set<Node>)
    requires Layered(g, m, layers) && i < |layers[|layers| - 1]|
    requires forall v :: v in layers[|layers| - 1][i..] ==> v !in used
    ensures var top := layers[|layers| - 1];
            var p := Dfs(g, m, layers, top[i], |layers| - 1, used);
            forall v :: v in top[i + 1..] ==> v !in used && (p.Some? ==> v !in p.value)
  {
    var top := layers[|layers| - 1];
    var p := Dfs(g, m, layers, top[i], |layers| - 1, used);
    assert forall v :: v in top[i + 1..] ==> v in top[i..];
    if p.Some? {
      DfsDescends(g, m, layers, top[i], |layers| - 1, used);
      StaysBelow(g, m, layers, p.value, |layers| - 1);
      DistinctIndices(top);
      forall v | v in top[i + 1..]
        ensures v !in p.value
      {
        assert v in ToSet(top) && v !in Union(layers[..|layers| - 1]);
        assert p.value == [top[i]] + p.value[1..];
      }
    }
  }

  /** Marks the nodes of a found path. */
  method markPath(slap: EdgeSet, used0: set<Node>) returns (used: set<Node>)
    ensures used == used0 + (set e | e in slap :: e.node1) + (set e | e in slap :: e.node2)
  {
    used := used0;
    for j := 0 to |slap|
      invariant used == used0 + (set e | e in slap[..j] :: e.node1) + (set e | e in slap[..j] :: e.node2)
    {
      assert slap[..j + 1] == slap[..j] + [slap[j]];
      used := used + {slap[j].node1, slap[j].node2};
    }
    assert slap[..|slap|] == slap;
  }

  /** The search already marked them. */
  method findDisjointSLAP(g: Graph, start: Node, matching: EdgeSet, guideLayers: seq<seq<Node>>, used0: set<Node>)
    returns (slap: EdgeSet, found: bool, used: set<Node>)
    requires g.Valid() && guideLayers != [] && Sided(g, guideLayers)
    requires start in guideLayers[|guideLayers| - 1] && start !in used0
    ensures var p := Dfs(g, ToSet(matching), guideLayers, start, |guideLayers| - 1, used0);
            && found == p.Some?
            && (found ==> slap == Slap(p.value) && used == used0 + ToSet(p.value))
            && (!found ==> used == used0)
  {
    slap, found, used := findDisjointSLAPHelper(g, start, [], |guideLayers| - 1, matching, guideLayers, used0);
    if found {
      ghost var p := Dfs(g, ToSet(matching), guideLayers, start, |guideLayers| - 1, used0).value;
      DfsDescends(g, ToSet(matching), guideLayers, start, |guideLayers| - 1, used0);
      assert slap == Slap(p);
      forall e | e in slap
        ensures e.node1 in ToSet(p) && e.node2 in ToSet(p)
      {
        EdgesOnPath(p, |guideLayers| - 1, e);
      }
      used := markPath(slap, used);
    }
  }

  ghost predicate Slaps(result: seq<EdgeSet>, paths: seq<Path>) {
    |result| == |paths| && forall i :: 0 <= i < |result| ==> result[i] == Slap(paths[i])
  }

  method maximalDisjointSLAPCollection(g: Graph, matching: EdgeSet) returns (result: seq<EdgeSet>)
    requires g.Valid()
    ensures Slaps(result, Phase(g, ToSet(matching)))
  {
    var guideLayers := createSLAPGuideLayers(g, matching);
    if |guideLayers| == 0 {
      return [];
    }
    PhaseGood(g, ToSet(matching));
    result := collectSLAPs(g, matching, guideLayers);
  }

  /** The loop over the last guide layer. */
  method collectSLAPs(g: Graph, matching: EdgeSet, guideLayers: seq<seq<Node>>) returns (result: seq<EdgeSet>)
    requires g.Valid() && Layered(g, ToSet(matching), guideLayers)
    ensures Slaps(result, Collect(g, ToSet(matching), guideLayers, guideLayers[|guideLayers| - 1], {}))
  {
    ghost var m := ToSet(matching);
    LayeredSided(g, m, guideLayers);
    ghost var paths: seq<Path> := [];
    var used: set<Node> := {};
    var top := guideLayers[|guideLayers| - 1];
    ghost var goal := Collect(g, m, guideLayers, top, {});
    result := [];
    assert [] + goal == goal && top[0..] == top;
    for i := 0 to |top|
      invariant Slaps(result, paths)
      invariant goal == paths + Collect(g, m, guideLayers, top[i..], used)
      invariant forall v :: v in top[i..] ==> v !in used
    {
      assert top[i..][0] == top[i] && top[i..][1..] == top[i + 1..];
      assert top[i] in top[i..];
      TopUnused(g, m, guideLayers, i, used);
      ghost var p := Dfs(g, m, guideLayers, top[i], |guideLayers| - 1, used);
      var slap, found, marks := findDisjointSLAP(g, top[i], matching, guideLayers, used);
      used := marks;
      if found {
        ConcatCons(paths, p.value, Collect(g, m, guideLayers, top[i + 1..], used));
        result := result + [slap];
        paths := paths + [p.value];
      }
    }
    assert top[|top|..] == [] && paths + [] == paths;
  }

  method LargestMatching(g: Graph) returns (matching: EdgeSet)
    requires g.Valid()
    ensures Koenig.LeftOnce(g, {}) && ToSet(matching) == Largest(g, {})
    ensures Distinct(matching)
  {
    matching := [];
    Koenig.NothingOnce(g);
    var paths := maximalDisjointSLAPCollection(g, matching);
    while |paths| > 0
      invariant Koenig.LeftOnce(g, ToSet(matching)) && Distinct(matching)
      invariant Slaps(paths, Phase(g, ToSet(matching)))
      invariant Largest(g, ToSet(matching)) == Largest(g, {})
      decreases |g.edges| - |ToSet(matching)|
    {
      PhaseStepBounded(g, ToSet(matching));
      matching := flipPaths(matching, paths, Phase(g, ToSet(matching)));
      paths := maximalDisjointSLAPCollection(g, matching);
    }
  }

  /** The inner loop of LargestMatching. */
  method flipPaths(matching0: EdgeSet, slaps: seq<EdgeSet>, ghost paths: seq<Path>) returns (matching: EdgeSet)
    requires Slaps(slaps, paths) && Distinct(matching0)
    ensures ToSet(matching) == FlipAll(ToSet(matching0), paths) && Distinct(matching)
  {
    matching := matching0;
    for i := 0 to |slaps|
      invariant FlipAll(ToSet(matching), paths[i..]) == FlipAll(ToSet(matching0), paths) && Distinct(matching)
    {
      assert paths[i..][0] == paths[i] && paths[i..][1..] == paths[i + 1..];
      matching := SymmetricDifference(matching, slaps[i]);
      DistinctIndices(matching);
    }
  }
}
