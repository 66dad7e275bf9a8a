/** The bipartite graph and the guide layers of the shortest augmenting paths. */
module GuidedSearch {
  import opened Bytes
  import opened Edges

  predicate Distinct<T(==)>(s: seq<T>) {
    s == [] || (Distinct(s[..|s| - 1]) && s[|s| - 1] !in s[..|s| - 1])
  }

  lemma {:induction false} DistinctIndices<T>(s: seq<T>)
    ensures Distinct(s) <==> forall i, j :: 0 <= i < j < |s| ==> s[i] != s[j]
  {
    if s != [] {
      DistinctIndices(s[..|s| - 1]);
    }
  }

  datatype Graph = Graph(left: seq<Node>, right: seq<Node>, edges: EdgeSet) {
    /** Every edge leads from a left node to a right node. */
    predicate Bipartite() {
      && (forall v :: v in left ==> v !in right)
      && (forall e :: e in edges ==> e.node1 in left && e.node2 in right)
    }

    predicate Valid() {
      Bipartite() && Distinct(left) && Distinct(right) && Distinct(edges)
    }

    ghost function E(): set<Edge> {
      ToSet(edges)
    }

    ghost function Nodes(): set<Node> {
      ToSet(left) + ToSet(right)
    }
  }

  ghost predicate Answered<L, R>(leftValue: L, rightValues: seq<R>, neighbours: (L, R) -> Option<bool>, n: nat) {
    forall j :: 0 <= j < n <= |rightValues| ==> neighbours(leftValue, rightValues[j]).Some?
  }

  /** The edges at one left node are those the answers ask for. */
  ghost predicate Row<L, R>(leftValue: L, node: Node, rightValues: seq<R>, right: seq<Node>,
                            neighbours: (L, R) -> Option<bool>, edges: EdgeSet, n: nat)
  {
    forall j :: 0 <= j < n <= |rightValues| && n <= |right| ==>
                  (Edge(node, right[j]) in edges <==> neighbours(leftValue, rightValues[j]) == Some(true))
  }

  /** The inner loop: one left value against all right values. */
  method addRow<L, R>(leftValue: L, node: Node, rightValues: seq<R>, right: seq<Node>,
                      neighbours: (L, R) -> Option<bool>, before: EdgeSet)
    returns (ok: bool, edges: EdgeSet)
    requires |right| == |rightValues| && (forall j, k :: 0 <= j < k < |right| ==> right[j] != right[k])
    requires Distinct(before) && forall e :: e in before ==> e.node1 != node
    ensures ok <==> Answered(leftValue, rightValues, neighbours, |rightValues|)
    ensures ok ==> before <= edges && Distinct(edges)
    ensures ok ==> forall e :: e in edges ==> e in before || (e.node1 == node && e.node2 in right)
    ensures ok ==> Row(leftValue, node, rightValues, right, neighbours, edges, |rightValues|)
  {
    edges := before;
    for j := 0 to |rightValues|
      invariant before <= edges && Distinct(edges)
      invariant forall e :: e in edges ==> e in before || (e.node1 == node && e.node2 in right[..j])
      invariant Answered(leftValue, rightValues, neighbours, j)
      invariant Row(leftValue, node, rightValues, right, neighbours, edges, j)
    {
      var answer := neighbours(leftValue, rightValues[j]);
      if answer.None? {
        return false, before;
      }
      assert Edge(node, right[j]) !in edges;
      if answer.value {
        edges := edges + [Edge(node, right[j])];
        assert edges[..|edges| - 1] + [Edge(node, right[j])] == edges;
      }
    }
    ok := true;
  }

  method NewBipartiteGraph<L, R>(leftValues: seq<L>, rightValues: seq<R>, neighbours: (L, R) -> Option<bool>)
    returns (g: Option<Graph>)
    ensures g.Some? <==> forall i :: 0 <= i < |leftValues| ==> Answered(leftValues[i], rightValues, neighbours, |rightValues|)
    ensures g.Some? ==> g.value.Valid()
    ensures g.Some? ==> |g.value.left| == |leftValues| && |g.value.right| == |rightValues|
    ensures g.Some? ==> forall i :: 0 <= i < |leftValues| ==>
              Row(leftValues[i], g.value.left[i], rightValues, g.value.right, neighbours, g.value.edges, |rightValues|)
  {
    var n := |leftValues|;
    var left := seq(n, i => Node(i));
    var right := seq(|rightValues|, j => Node(j + n));
    var edges: EdgeSet := [];
    for i := 0 to n
      invariant forall e :: e in edges ==> 0 <= e.node1.id < i && e.node2 in right
      invariant Distinct(edges)
      invariant forall k :: 0 <= k < i ==> Answered(leftValues[k], rightValues, neighbours, |rightValues|)
      invariant forall k :: 0 <= k < i ==> Row(leftValues[k], left[k], rightValues, right, neighbours, edges, |rightValues|)
    {
      var ok, more := addRow(leftValues[i], left[i], rightValues, right, neighbours, edges);
      if !ok {
        return None;
      }
      forall k | 0 <= k < i
        ensures Row(leftValues[k], left[k], rightValues, right, neighbours, more, |rightValues|)
      {
        assert forall j :: 0 <= j < |right| ==>
                             (Edge(left[k], right[j]) in edges <==> Edge(left[k], right[j]) in more);
      }
      edges := more;
    }
    assert forall e :: e in edges ==> left[e.node1.id] == e.node1;
    DistinctIndices(left);
    DistinctIndices(right);
    g := Some(Graph(left, right, edges));
  }

  /**
   * The edge between a node v of a layer and a node u of the layer below it:
   * outside m when the level is odd (v is a right node), inside m when it is even.
   */
  ghost predicate Step(g: Graph, m: set<Edge>, level: nat, v: Node, u: Node) {
    if level % 2 == 1 then Edge(u, v) in g.edges && Edge(u, v) !in m
    else Edge(v, u) in g.edges && Edge(v, u) in m
  }

  function Side(g: Graph, level: nat): seq<Node> {
    if level % 2 == 1 then g.right else g.left
  }

  /** The unused candidates with a step from u, appended to the layer. */
  ghost function Scan(g: Graph, m: set<Edge>, level: nat, u: Node, candidates: seq<Node>,
                      layer: seq<Node>, used: set<Node>): (seq<Node>, set<Node>)
  {
    if candidates == [] then (layer, used)
    else
      var v := candidates[0];
      if v !in used && Step(g, m, level, v, u) then
        Scan(g, m, level, u, candidates[1..], layer + [v], used + {v})
      else
        Scan(g, m, level, u, candidates[1..], layer, used)
  }

  /** The layer above the nodes of last. */
  ghost function Expand(g: Graph, m: set<Edge>, level: nat, last: seq<Node>,
                        layer: seq<Node>, used: set<Node>): (seq<Node>, set<Node>)
  {
    if last == [] then (layer, used)
    else
      var (layer', used') := Scan(g, m, level, last[0], Side(g, level), layer, used);
      Expand(g, m, level, last[1..], layer', used')
  }

  // What a new layer holds ------------------------------------------------------------

  /** v has a step down to one of the nodes below. */
  ghost predicate Reached(g: Graph, m: set<Edge>, level: nat, below: seq<Node>, v: Node) {
    exists u :: u in below && Step(g, m, level, v, u)
  }

  /** layer holds distinct nodes, new since base, each reached from below. */
  ghost predicate Grown(g: Graph, m: set<Edge>, level: nat, below: seq<Node>, base: set<Node>,
                        layer: seq<Node>, used: set<Node>)
  {
    && used == base + ToSet(layer)
    && Distinct(layer)
    && (forall v :: v in layer ==> v !in base && v in Side(g, level) && Reached(g, m, level, below, v))
  }

  lemma {:induction false} ScanGrows(g: Graph, m: set<Edge>, level: nat, below: seq<Node>, base: set<Node>,
      u: Node, candidates: seq<Node>, layer: seq<Node>, used: set<Node>)
    requires u in below && Grown(g, m, level, below, base, layer, used)
    requires forall v :: v in candidates ==> v in Side(g, level)
    ensures var (layer', used') := Scan(g, m, level, u, candidates, layer, used);
            && Grown(g, m, level, below, base, layer', used') && used <= used'
            && (forall v :: v in candidates && Step(g, m, level, v, u) ==> v in used')
  {
    if candidates != [] {
      var v := candidates[0];
      if v !in used && Step(g, m, level, v, u) {
        assert (layer + [v])[..|layer|] == layer;
        assert ToSet(layer + [v]) == ToSet(layer) + {v};
        ScanGrows(g, m, level, below, base, u, candidates[1..], layer + [v], used + {v});
      } else {
        ScanGrows(g, m, level, below, base, u, candidates[1..], layer, used);
      }
      assert forall w :: w in candidates <==> w == v || w in candidates[1..];
    }
  }

  lemma {:induction false} ExpandGrows(g: Graph, m: set<Edge>, level: nat, below: seq<Node>, base: set<Node>,
      last: seq<Node>, layer: seq<Node>, used: set<Node>)
    requires Grown(g, m, level, below, base, layer, used)
    requires forall u :: u in last ==> u in below
    ensures var (layer', used') := Expand(g, m, level, last, layer, used);
            && Grown(g, m, level, below, base, layer', used') && used <= used'
            && (forall u, v :: u in last && v in Side(g, level) && Step(g, m, level, v, u) ==> v in used')
  {
    if last != [] {
      ScanGrows(g, m, level, below, base, last[0], Side(g, level), layer, used);
      var (layer', used') := Scan(g, m, level, last[0], Side(g, level), layer, used);
      ExpandGrows(g, m, level, below, base, last[1..], layer', used');
      assert forall u :: u in last <==> u == last[0] || u in last[1..];
    }
  }

  /** The next layer, from an empty one. */
  lemma {:induction false} NextLayer(g: Graph, m: set<Edge>, level: nat, last: seq<Node>, used: set<Node>)
    ensures var (layer, used') := Expand(g, m, level, last, [], used);
            && Grown(g, m, level, last, used, layer, used') && used <= used'
            && (forall u, v :: u in last && v in Side(g, level) && Step(g, m, level, v, u) ==> v in used')
  {
    assert used == used + ToSet<Node>([]);
    ExpandGrows(g, m, level, last, used, last, [], used);
  }

  // All layers --------------------------------------------------------------------------

  ghost function FreeOf(m: set<Edge>, nodes: seq<Node>): seq<Node> {
    if nodes == [] then []
    else if Degree(m, nodes[|nodes| - 1]) == 0 then FreeOf(m, nodes[..|nodes| - 1]) + [nodes[|nodes| - 1]]
    else FreeOf(m, nodes[..|nodes| - 1])
  }

  ghost predicate HasFree(m: set<Edge>, layer: seq<Node>) {
    exists v :: v in layer && Degree(m, v) == 0
  }

  ghost function Layers(g: Graph, m: set<Edge>, layers: seq<seq<Node>>, used: set<Node>): seq<seq<Node>>
    requires layers != [] && used <= g.Nodes()
    decreases g.Nodes() - used
  {
    var level, last := |layers|, layers[|layers| - 1];
    NextLayer(g, m, level, last, used);
    var (next, used') := Expand(g, m, level, last, [], used);
    if next == [] then []
    else if level % 2 == 1 && HasFree(m, next) then layers + [next]
    else
      assert next[0] in ToSet(next) && next[0] !in used;
      Layers(g, m, layers + [next], used')
  }

  ghost function GuideLayers(g: Graph, m: set<Edge>): seq<seq<Node>> {
    var first := FreeOf(m, g.left);
    FreeOfMember(m, g.left);
    if first == [] then [] else Layers(g, m, [first], ToSet(first))
  }

  lemma {:induction false} FreeOfMember(m: set<Edge>, nodes: seq<Node>)
    ensures forall v :: v in FreeOf(m, nodes) <==> v in nodes && Degree(m, v) == 0
    ensures Distinct(nodes) ==> Distinct(FreeOf(m, nodes))
  {
    if nodes != [] {
      FreeOfMember(m, nodes[..|nodes| - 1]);
    }
  }

  ghost function Union(layers: seq<seq<Node>>): set<Node> {
    if layers == [] then {} else Union(layers[..|layers| - 1]) + ToSet(layers[|layers| - 1])
  }

  /** layer sits at the given level on top of the layer below: distinct nodes of one side, each reached from below. */
  ghost predicate OnTop(g: Graph, m: set<Edge>, level: nat, below: seq<Node>, layer: seq<Node>) {
    && layer != [] && Distinct(layer)
    && (forall v :: v in layer ==> v in Side(g, level) && Reached(g, m, level, below, v))
  }

  /** The free left nodes first, then layers of new nodes, each on top of the one before. */
  ghost predicate Layered(g: Graph, m: set<Edge>, layers: seq<seq<Node>>) {
    var n := |layers|;
    if n == 0 then false
    else if n == 1 then
      && layers[0] != [] && Distinct(layers[0])
      && (forall v :: v in layers[0] <==> v in g.left && Degree(m, v) == 0)
    else
      && Layered(g, m, layers[..n - 1])
      && OnTop(g, m, n - 1, layers[n - 2], layers[n - 1])
      && Union(layers[..n - 1]) !! ToSet(layers[n - 1])
  }

  /** All steps from u to the level above end in z. */
  ghost predicate Closed(g: Graph, m: set<Edge>, level: nat, below: seq<Node>, z: set<Node>) {
    forall u, v :: u in below && v in Side(g, level) && Step(g, m, level, v, u) ==> v in z
  }

  /** Every layer but the last is closed, and no right node is free. */
  ghost predicate Explored(g: Graph, m: set<Edge>, layers: seq<seq<Node>>) {
    var n := |layers|;
    n > 1 ==>
      && Explored(g, m, layers[..n - 1])
      && Closed(g, m, n - 1, layers[n - 2], Union(layers))
      && ((n - 1) % 2 == 1 ==> !HasFree(m, layers[n - 1]))
  }

  lemma {:induction false} UnionSnoc(layers: seq<seq<Node>>, next: seq<Node>)
    ensures (layers + [next])[..|layers|] == layers
    ensures Union(layers + [next]) == Union(layers) + ToSet(next)
  {
    assert (layers + [next])[..|layers|] == layers;
  }

  /** The search gave up: z is closed under steps and reaches no free right node. */
  ghost predicate DeadEnd(g: Graph, m: set<Edge>, z: set<Node>) {
    && (forall v :: v in g.left && Degree(m, v) == 0 ==> v in z)
    && (forall e :: e in g.edges && e !in m && e.node1 in z ==> e.node2 in z)
    && (forall e :: e in g.edges && e in m && e.node2 in z ==> e.node1 in z)
    && (forall v :: v in g.right && v in z ==> Degree(m, v) > 0)
    && (forall v :: v in g.left && v in z && Degree(m, v) > 0 ==> exists r :: r in z && Edge(v, r) in m)
  }

  lemma {:induction false} StepOf(g: Graph, m: set<Edge>, level: nat, u: Node, v: Node)
    requires g.Bipartite() && level > 0 && u in Side(g, level - 1)
    requires if u in g.left then Edge(u, v) in g.edges && Edge(u, v) !in m else Edge(v, u) in g.edges && Edge(v, u) in m
    ensures Step(g, m, level, v, u) && v in Side(g, level)
  {
    assert level % 2 == 1 <==> (level - 1) % 2 == 0;
  }

  /** A step from a left node outside m, or from a right node inside m, ends in z. */
  lemma {:induction false} StepStays(g: Graph, m: set<Edge>, layers: seq<seq<Node>>, z: set<Node>, u: Node, v: Node)
    requires g.Bipartite() && Layered(g, m, layers) && Explored(g, m, layers) && u in Union(layers)
    requires Union(layers) <= z && Closed(g, m, |layers|, layers[|layers| - 1], z)
    requires if u in g.left then Edge(u, v) in g.edges && Edge(u, v) !in m else Edge(v, u) in g.edges && Edge(v, u) in m
    ensures v in z
  {
    var n := |layers|;
    if u in ToSet(layers[n - 1]) {
      assert u in Side(g, n - 1);
      StepOf(g, m, n, u, v);
    } else {
      StepStays(g, m, layers[..n - 1], Union(layers), u, v);
    }
  }

  lemma {:induction false} StepBack(g: Graph, m: set<Edge>, layers: seq<seq<Node>>, v: Node)
    requires g.Bipartite() && Layered(g, m, layers) && v in Union(layers) && v in g.left && Degree(m, v) > 0
    ensures exists r :: r in Union(layers) && Edge(v, r) in m
  {
    var n := |layers|;
    if v in ToSet(layers[n - 1]) {
      assert n > 1 && v in Side(g, n - 1) && Reached(g, m, n - 1, layers[n - 2], v);
      var r :| r in layers[n - 2] && Step(g, m, n - 1, v, r);
      assert r in Union(layers[..n - 1]);
    } else {
      StepBack(g, m, layers[..n - 1], v);
    }
  }

  lemma {:induction false} NoFreeRight(g: Graph, m: set<Edge>, layers: seq<seq<Node>>, v: Node)
    requires g.Bipartite() && Layered(g, m, layers) && Explored(g, m, layers)
    requires v in Union(layers) && v in g.right
    ensures Degree(m, v) > 0
  {
    var n := |layers|;
    if v in ToSet(layers[n - 1]) {
      assert n > 1 ==> v in Side(g, n - 1);
    } else {
      NoFreeRight(g, m, layers[..n - 1], v);
    }
  }

  lemma {:induction false} FirstLayer(g: Graph, m: set<Edge>, layers: seq<seq<Node>>)
    requires Layered(g, m, layers)
    ensures forall v :: v in g.left && Degree(m, v) == 0 ==> v in Union(layers)
    ensures forall v :: v in layers[0] ==> v in g.left && Degree(m, v) == 0
  {
    if |layers| > 1 {
      FirstLayer(g, m, layers[..|layers| - 1]);
    }
  }

  lemma {:induction false} ExploredDeadEnd(g: Graph, m: set<Edge>, layers: seq<seq<Node>>)
    requires g.Bipartite() && Layered(g, m, layers) && Explored(g, m, layers)
    requires Closed(g, m, |layers|, layers[|layers| - 1], Union(layers))
    ensures DeadEnd(g, m, Union(layers))
  {
    var z := Union(layers);
    FirstLayer(g, m, layers);
    forall e | e in g.edges && e !in m && e.node1 in z
      ensures e.node2 in z
    {
      StepStays(g, m, layers, z, e.node1, e.node2);
    }
    forall e | e in g.edges && e in m && e.node2 in z
      ensures e.node1 in z
    {
      StepStays(g, m, layers, z, e.node2, e.node1);
    }
    forall v | v in g.left && v in z && Degree(m, v) > 0
      ensures exists r :: r in z && Edge(v, r) in m
    {
      StepBack(g, m, layers, v);
    }
    forall v | v in g.right && v in z
      ensures Degree(m, v) > 0
    {
      NoFreeRight(g, m, layers, v);
    }
  }

  ghost predicate Searching(g: Graph, m: set<Edge>, layers: seq<seq<Node>>, used: set<Node>) {
    g.Bipartite() && Layered(g, m, layers) && Explored(g, m, layers) && used == Union(layers) && used <= g.Nodes()
  }

  /** One round of the loop. */
  lemma {:induction false} Round(g: Graph, m: set<Edge>, layers: seq<seq<Node>>, used: set<Node>)
    requires Searching(g, m, layers, used)
    ensures var (next, used') := Expand(g, m, |layers|, layers[|layers| - 1], [], used);
            && (next == [] ==> DeadEnd(g, m, used))
            && (next != [] ==> Layered(g, m, layers + [next]) && g.Nodes() - used' < g.Nodes() - used)
            && (next != [] && (|layers| % 2 == 0 || !HasFree(m, next)) ==> Searching(g, m, layers + [next], used'))
  {
    var (next, used') := Expand(g, m, |layers|, layers[|layers| - 1], [], used);
    NextLayer(g, m, |layers|, layers[|layers| - 1], used);
    if next == [] {
      assert used' == used;
      ExploredDeadEnd(g, m, layers);
    } else {
      UnionSnoc(layers, next);
      assert next[0] in ToSet(next) && next[0] !in used;
    }
  }

  /** Either the layers lead up to the first free right node, or the search reached a dead end. */
  ghost predicate Sound(g: Graph, m: set<Edge>, r: seq<seq<Node>>) {
    if r == [] then exists z :: DeadEnd(g, m, z)
    else Layered(g, m, r) && |r| % 2 == 0 && HasFree(m, r[|r| - 1]) && Explored(g, m, r[..|r| - 1])
  }

  lemma {:induction false} LayersSound(g: Graph, m: set<Edge>, layers: seq<seq<Node>>, used: set<Node>)
    requires Searching(g, m, layers, used)
    ensures var r := Layers(g, m, layers, used);
            Sound(g, m, r)
    decreases g.Nodes() - used
  {
    assert layers != [];
    hide Layered, Explored, DeadEnd, Union, HasFree;
    Round(g, m, layers, used);
    var (next, used') := Expand(g, m, |layers|, layers[|layers| - 1], [], used);
    assert (layers + [next])[..|layers|] == layers;
    if next != [] && !(|layers| % 2 == 1 && HasFree(m, next)) {
      LayersSound(g, m, layers + [next], used');
    }
  }

  lemma {:induction false} GuideLayersSound(g: Graph, m: set<Edge>)
    requires g.Valid()
    ensures var r := GuideLayers(g, m);
            Sound(g, m, r)
  {
    var first := FreeOf(m, g.left);
    FreeOfMember(m, g.left);
    if first == [] {
      var z: set<Node> := {};
      assert forall v :: v in g.left ==> v !in first;
      assert DeadEnd(g, m, z);
    } else {
      var one := [first];
      assert one[0] == first;
      assert one[..0] == [] && Union(one) == ToSet(first);
      LayersSound(g, m, one, ToSet(first));
    }
  }
}
