/**
 * A run of LargestMatching whose result is not a matching and is larger than every
 * matching: five edges although the graph has only four right nodes.
 */
module Oversize {
  import opened Bytes
  import opened Edges
  import opened GuidedSearch
  import opened Paths
  import opened Phases
  import Koenig

  const L := [Node(0), Node(1), Node(2), Node(3), Node(4)]
  const R := [Node(5), Node(6), Node(7), Node(8)]

  function E(l: int, r: int): Edge {
    Edge(Node(l), Node(r))
  }

  const G := Graph(L, R, [E(0, 5), E(0, 7), E(1, 6), E(1, 8), E(2, 7), E(3, 5), E(4, 6)])

  predicate Linked(l: int, r: int) {
    (r == 5 && (l == 0 || l == 3)) || (r == 6 && (l == 1 || l == 4)) || (r == 7 && (l == 0 || l == 2)) || (r == 8 && l == 1)
  }

  lemma {:induction false} EdgesOfG(l: int, r: int)
    ensures Edge(Node(l), Node(r)) in G.edges <==> Linked(l, r)
  {
  }

  /** The chosen candidates in order. */
  function Taken(c: seq<Node>, t: seq<bool>): seq<Node>
    requires |c| == |t|
  {
    if c == [] then [] else (if t[0] then [c[0]] else []) + Taken(c[1..], t[1..])
  }

  /** t tells which candidates a scan from u takes. */
  ghost predicate Takes(m: set<Edge>, level: nat, u: Node, c: seq<Node>, used: set<Node>, t: seq<bool>) {
    |c| == |t| && forall i :: 0 <= i < |c| ==> (t[i] <==> c[i] !in used && Step(G, m, level, c[i], u))
  }

  lemma {:induction false} ScanTaken(m: set<Edge>, level: nat, u: Node, c: seq<Node>, layer: seq<Node>, used: set<Node>,
      t: seq<bool>)
    requires Takes(m, level, u, c, used, t) && forall i, j :: 0 <= i < j < |c| ==> c[i] != c[j]
    ensures Scan(G, m, level, u, c, layer, used).0 == layer + Taken(c, t)
    ensures Scan(G, m, level, u, c, layer, used).1 == used + ToSet(Taken(c, t))
    decreases |c|
  {
    if c == [] {
    } else {
      var rest := Taken(c[1..], t[1..]);
      assert forall i :: 0 <= i < |c| - 1 ==> c[1..][i] == c[i + 1] && t[1..][i] == t[i + 1];
      if t[0] {
        ScanTaken(m, level, u, c[1..], layer + [c[0]], used + {c[0]}, t[1..]);
        assert (layer + [c[0]]) + rest == layer + ([c[0]] + rest);
        assert used + {c[0]} + ToSet(rest) == used + ToSet([c[0]] + rest);
      } else {
        ScanTaken(m, level, u, c[1..], layer, used, t[1..]);
        assert [] + rest == rest;
      }
    }
  }

  lemma {:induction false} TakenR(t: seq<bool>)
    requires |t| == 4
    ensures Taken(R, t) == (if t[0] then [Node(5)] else []) + ((if t[1] then [Node(6)] else [])
                         + ((if t[2] then [Node(7)] else []) + (if t[3] then [Node(8)] else [])))
  {
    var r1, r2, r3 := [Node(6), Node(7), Node(8)], [Node(7), Node(8)], [Node(8)];
    assert R[1..] == r1 && r1[1..] == r2 && r2[1..] == r3 && r3[1..] == [];
    var t1, t2, t3 := t[1..], t[2..], t[3..];
    assert t1[1..] == t2 && t2[1..] == t3 && t3[1..] == [];
    assert Taken(r3, t3) == (if t[3] then [Node(8)] else []) + Taken([], []);
    assert Taken(r3, t3) == if t[3] then [Node(8)] else [];
    assert Taken(r2, t2) == (if t[2] then [Node(7)] else []) + Taken(r3, t3);
    assert Taken(r1, t1) == (if t[1] then [Node(6)] else []) + Taken(r2, t2);
  }

  /** One row of an odd layer: what the left node l adds. */
  lemma {:induction false} RowR(m: set<Edge>, level: nat, l: int, rest: seq<Node>, layer: seq<Node>, used: set<Node>,
      t: seq<bool>, v: seq<Node>)
    requires level % 2 == 1
    requires |t| == 4 && forall i :: 0 <= i < 4 ==> (t[i] <==> Node(5 + i) !in used && Linked(l, 5 + i) && E(l, 5 + i) !in m)
    requires v == (if t[0] then [Node(5)] else []) + ((if t[1] then [Node(6)] else [])
                  + ((if t[2] then [Node(7)] else []) + (if t[3] then [Node(8)] else [])))
    ensures Expand(G, m, level, [Node(l)] + rest, layer, used) == Expand(G, m, level, rest, layer + v, used + ToSet(v))
  {
    forall i | 0 <= i < 4
      ensures t[i] <==> R[i] !in used && Step(G, m, level, R[i], Node(l))
    {
      EdgesOfG(l, 5 + i);
      assert R[i] == Node(5 + i);
    }
    assert ([Node(l)] + rest)[1..] == rest;
    ScanTaken(m, level, Node(l), R, layer, used, t);
    TakenR(t);
  }

  /** A row that adds nothing. */
  lemma {:induction false} RowNone(m: set<Edge>, level: nat, l: int, rest: seq<Node>, layer: seq<Node>, used: set<Node>)
    requires level % 2 == 1
    requires forall r :: 5 <= r < 9 && Linked(l, r) && E(l, r) !in m ==> Node(r) in used
    ensures Expand(G, m, level, [Node(l)] + rest, layer, used) == Expand(G, m, level, rest, layer, used)
  {
    RowR(m, level, l, rest, layer, used, [false, false, false, false], []);
    assert layer + [] == layer && used + ToSet<Node>([]) == used;
  }

  const L1 := [Node(1), Node(2), Node(3), Node(4)]
  const L2 := [Node(2), Node(3), Node(4)]

  lemma {:induction false} Layer1Next(layer: seq<Node>, used: set<Node>)
    requires used == {Node(0), Node(1), Node(2), Node(3), Node(4), Node(5), Node(7)}
    ensures var b := [Node(6), Node(8)];
            Expand(G, {}, 1, L1, layer, used) == Expand(G, {}, 1, L2, layer + b, used + ToSet(b))
  {
    assert L1 == [Node(1)] + L2;
    RowR({}, 1, 1, L2, layer, used, [false, true, false, true], [Node(6), Node(8)]);
  }

  lemma {:induction false} Layer1Start(used: set<Node>)
    requires used == {Node(0), Node(1), Node(2), Node(3), Node(4)}
    ensures var a, b := [Node(5), Node(7)], [Node(6), Node(8)];
            Expand(G, {}, 1, L, [], used) == Expand(G, {}, 1, L2, a + b, used + ToSet(a) + ToSet(b))
  {
    var a := [Node(5), Node(7)];
    assert L == [Node(0)] + L1 && [] + a == a;
    RowR({}, 1, 0, L1, [], used, [true, false, true, false], a);
    Layer1Next(a, used + ToSet(a));
  }

  lemma {:induction false} Layer1End(layer: seq<Node>, used: set<Node>)
    requires Node(5) in used && Node(6) in used && Node(7) in used
    ensures Expand(G, {}, 1, L2, layer, used) == (layer, used)
  {
    assert L2 == [Node(2)] + [Node(3), Node(4)];
    RowNone({}, 1, 2, [Node(3), Node(4)], layer, used);
    assert [Node(3), Node(4)] == [Node(3)] + [Node(4)];
    RowNone({}, 1, 3, [Node(4)], layer, used);
    assert [Node(4)] == [Node(4)] + [];
    RowNone({}, 1, 4, [], layer, used);
  }

  const T1 := [Node(5), Node(7), Node(6), Node(8)]

  lemma {:induction false} FreeNone(nodes: seq<Node>)
    ensures FreeOf({}, nodes) == nodes
  {
    if nodes != [] {
      FreeNone(nodes[..|nodes| - 1]);
      DegreeZero({}, nodes[|nodes| - 1]);
    }
  }

  lemma {:induction false} NextOf(g: Graph, m: set<Edge>, layers: Layering, used: set<Node>, next: seq<Node>, used': set<Node>)
    requires layers != [] && used <= g.Nodes() && used' <= g.Nodes() && next != []
    requires Expand(g, m, |layers|, layers[|layers| - 1], [], used) == (next, used')
    requires |layers| % 2 == 0 || !HasFree(m, next)
    ensures Layers(g, m, layers, used) == Layers(g, m, layers + [next], used')
  {
  }

  lemma {:induction false} TopOf(g: Graph, m: set<Edge>, layers: Layering, used: set<Node>, next: seq<Node>, used': set<Node>)
    requires layers != [] && used <= g.Nodes() && next != []
    requires Expand(g, m, |layers|, layers[|layers| - 1], [], used) == (next, used')
    requires |layers| % 2 == 1 && HasFree(m, next)
    ensures Layers(g, m, layers, used) == layers + [next]
  {
  }

  lemma {:induction false} GuideOf(g: Graph, m: set<Edge>, first: seq<Node>, used: set<Node>)
    requires FreeOf(m, g.left) == first && first != [] && used == ToSet(first)
    ensures used <= g.Nodes() && GuideLayers(g, m) == Layers(g, m, [first], used)
  {
    FreeOfMember(m, g.left);
  }

  lemma {:induction false} FreeRight1()
    ensures HasFree({}, T1)
  {
    DegreeZero({}, Node(5));
    assert Node(5) in T1;
  }

  lemma {:induction false} Layer1()
    ensures var used := ToSet(L);
            Expand(G, {}, 1, L, [], used) == (T1, used + ToSet([Node(5), Node(7)]) + ToSet([Node(6), Node(8)]))
  {
    var a, b := [Node(5), Node(7)], [Node(6), Node(8)];
    assert ToSet(L) == {Node(0), Node(1), Node(2), Node(3), Node(4)};
    Layer1Start(ToSet(L));
    Layer1End(a + b, ToSet(L) + ToSet(a) + ToSet(b));
    assert a + b == T1;
  }

  /** The first phase: all left nodes, then all right nodes. */
  lemma {:induction false} Guide1()
    ensures GuideLayers(G, {}) == [L, T1]
  {
    FreeNone(L);
    GuideOf(G, {}, L, ToSet(L));
    Layer1();
    FreeRight1();
    TopOf(G, {}, [L], ToSet(L), T1, ToSet(L) + ToSet([Node(5), Node(7)]) + ToSet([Node(6), Node(8)]));
    assert [L] + [T1] == [L, T1];
  }

  // Searching ---------------------------------------------------------------------------

  lemma {:induction false} Take(m: set<Edge>, layers: Layering, v: Node, level: nat, used: set<Node>,
      u: Node, rest: seq<Node>, p: Path)
    requires 0 < level < |layers| && u !in used && Step(G, m, level, v, u)
    requires Dfs(G, m, layers, u, level - 1, used) == Some(p)
    ensures Try(G, m, layers, v, level, used, [u] + rest) == Some([v] + p)
  {
  }

  lemma {:induction false} Skip(m: set<Edge>, layers: Layering, v: Node, level: nat, used: set<Node>,
      u: Node, rest: seq<Node>)
    requires 0 < level < |layers| && (u in used || !Step(G, m, level, v, u))
    ensures Try(G, m, layers, v, level, used, [u] + rest) == Try(G, m, layers, v, level, used, rest)
  {
    assert ([u] + rest)[1..] == rest;
  }

  lemma {:induction false} StepG(m: set<Edge>, level: nat, l: int, r: int)
    ensures level % 2 == 1 ==> (Step(G, m, level, Node(r), Node(l)) <==> Linked(l, r) && E(l, r) !in m)
    ensures level % 2 == 0 ==> (Step(G, m, level, Node(l), Node(r)) <==> Linked(l, r) && E(l, r) in m)
  {
    EdgesOfG(l, r);
  }

  lemma {:induction false} Search5()
    ensures Dfs(G, {}, [L, T1], Node(5), 1, {}) == Some([Node(5), Node(0)])
  {
    var none: set<Node> := {};
    assert L == [Node(0)] + L1 && none + {Node(5)} == {Node(5)} && [Node(5)] + [Node(0)] == [Node(5), Node(0)];
    StepG({}, 1, 0, 5);
    Take({}, [L, T1], Node(5), 1, {Node(5)}, Node(0), L1, [Node(0)]);
  }

  lemma {:induction false} Search7()
    ensures Dfs(G, {}, [L, T1], Node(7), 1, {Node(5), Node(0)}) == Some([Node(7), Node(2)])
  {
    var used := {Node(5), Node(0)} + {Node(7)};
    assert L == [Node(0)] + L1 && L1 == [Node(1)] + L2 && L2 == [Node(2)] + [Node(3), Node(4)];
    assert [Node(7)] + [Node(2)] == [Node(7), Node(2)];
    StepG({}, 1, 1, 7);
    StepG({}, 1, 2, 7);
    Skip({}, [L, T1], Node(7), 1, used, Node(0), L1);
    Skip({}, [L, T1], Node(7), 1, used, Node(1), L2);
    Take({}, [L, T1], Node(7), 1, used, Node(2), [Node(3), Node(4)], [Node(2)]);
  }

  lemma {:induction false} Search6()
    ensures Dfs(G, {}, [L, T1], Node(6), 1, {Node(5), Node(0), Node(7), Node(2)}) == Some([Node(6), Node(1)])
  {
    var used := {Node(5), Node(0), Node(7), Node(2)} + {Node(6)};
    assert L == [Node(0)] + L1 && L1 == [Node(1)] + L2;
    assert [Node(6)] + [Node(1)] == [Node(6), Node(1)];
    StepG({}, 1, 1, 6);
    Skip({}, [L, T1], Node(6), 1, used, Node(0), L1);
    Take({}, [L, T1], Node(6), 1, used, Node(1), L2, [Node(1)]);
  }

  lemma {:induction false} Search8()
    ensures Dfs(G, {}, [L, T1], Node(8), 1, {Node(5), Node(0), Node(7), Node(2), Node(6), Node(1)}) == None
  {
    var used := {Node(5), Node(0), Node(7), Node(2), Node(6), Node(1)} + {Node(8)};
    assert L == [Node(0)] + L1 && L1 == [Node(1)] + L2 && L2 == [Node(2)] + [Node(3), Node(4)];
    assert [Node(3), Node(4)] == [Node(3)] + [Node(4)] && [Node(4)] == [Node(4)] + [];
    StepG({}, 1, 3, 8);
    StepG({}, 1, 4, 8);
    Skip({}, [L, T1], Node(8), 1, used, Node(0), L1);
    Skip({}, [L, T1], Node(8), 1, used, Node(1), L2);
    Skip({}, [L, T1], Node(8), 1, used, Node(2), [Node(3), Node(4)]);
    Skip({}, [L, T1], Node(8), 1, used, Node(3), [Node(4)]);
    Skip({}, [L, T1], Node(8), 1, used, Node(4), []);
  }

  const P1: seq<Path> := [[Node(5), Node(0)], [Node(7), Node(2)], [Node(6), Node(1)]]

  lemma {:induction false} Found(m: set<Edge>, layers: Layering, u: Node, rest: seq<Node>, used: set<Node>, p: Path, used': set<Node>)
    requires layers != [] && Dfs(G, m, layers, u, |layers| - 1, used) == Some(p) && used' == used + ToSet(p)
    ensures Collect(G, m, layers, [u] + rest, used) == [p] + Collect(G, m, layers, rest, used')
  {
    assert ([u] + rest)[1..] == rest;
  }

  lemma {:induction false} CollectEnd()
    ensures Collect(G, {}, [L, T1], [Node(6), Node(8)], {Node(5), Node(0), Node(7), Node(2)}) == [[Node(6), Node(1)]]
  {
    var used := {Node(5), Node(0), Node(7), Node(2)};
    assert [Node(6), Node(8)] == [Node(6)] + [Node(8)] && [Node(8)][1..] == [];
    Search6();
    Found({}, [L, T1], Node(6), [Node(8)], used, [Node(6), Node(1)], {Node(5), Node(0), Node(7), Node(2), Node(6), Node(1)});
    Search8();
  }

  lemma {:induction false} CollectMore()
    ensures Collect(G, {}, [L, T1], [Node(7), Node(6), Node(8)], {Node(5), Node(0)}) == [[Node(7), Node(2)], [Node(6), Node(1)]]
  {
    assert [Node(7), Node(6), Node(8)] == [Node(7)] + [Node(6), Node(8)];
    Search7();
    Found({}, [L, T1], Node(7), [Node(6), Node(8)], {Node(5), Node(0)}, [Node(7), Node(2)],
          {Node(5), Node(0), Node(7), Node(2)});
    CollectEnd();
  }

  lemma {:induction false} PhaseOf(g: Graph, m: set<Edge>, layers: Layering)
    requires GuideLayers(g, m) == layers && layers != []
    ensures Phase(g, m) == Collect(g, m, layers, layers[|layers| - 1], {})
  {
  }

  lemma {:induction false} Phase1()
    ensures Phase(G, {}) == P1
  {
    Guide1();
    PhaseOf(G, {}, [L, T1]);
    assert T1 == [Node(5)] + [Node(7), Node(6), Node(8)];
    Search5();
    Found({}, [L, T1], Node(5), [Node(7), Node(6), Node(8)], {}, [Node(5), Node(0)], {Node(5), Node(0)});
    CollectMore();
  }

  // The second phase ----------------------------------------------------------------------

  const M1: set<Edge> := {E(0, 5), E(2, 7), E(1, 6)}

  lemma {:induction false} Slap2(v: Node, u: Node)
    ensures Slap([v, u]) == [Edge(u, v)]
  {
    assert [v, u][1..] == [u];
    assert PathEdges([u], 0) == [];
    assert PathEdges([v, u], 1) == [Edge(u, v)] + [];
  }

  lemma {:induction false} FlipSingle(m: set<Edge>, e: Edge)
    requires e !in m
    ensures SymDiff(m, [e]) == m + {e}
  {
    assert [e][1..] == [];
  }

  lemma {:induction false} Flip1()
    ensures FlipAll({}, P1) == M1
  {
    Slap2(Node(5), Node(0));
    Slap2(Node(7), Node(2));
    Slap2(Node(6), Node(1));
    FlipSingle({}, E(0, 5));
    FlipSingle({E(0, 5)}, E(2, 7));
    FlipSingle({E(0, 5), E(2, 7)}, E(1, 6));
    var none: set<Edge> := {};
    assert none + {E(0, 5)} == {E(0, 5)} && {E(0, 5)} + {E(2, 7)} == {E(0, 5), E(2, 7)};
    assert {E(0, 5), E(2, 7)} + {E(1, 6)} == M1;
    var p2, p3 := [[Node(7), Node(2)], [Node(6), Node(1)]], [[Node(6), Node(1)]];
    assert P1[1..] == p2 && p2[1..] == p3 && p3[1..] == [];
    assert FlipAll({E(0, 5), E(2, 7)}, p3) == M1;
    assert FlipAll({E(0, 5)}, p2) == M1;
  }

  lemma {:induction false} DegreesM1(i: int)
    requires 0 <= i < 9
    ensures Degree(M1, Node(i)) == 0 <==> i == 3 || i == 4 || i == 8
  {
    DegreeZero(M1, Node(i));
    assert E(0, 5) in M1 && E(2, 7) in M1 && E(1, 6) in M1;
  }

  lemma {:induction false} Free2()
    ensures FreeOf(M1, L) == [Node(3), Node(4)]
  {
    var l4, l3 := [Node(0), Node(1), Node(2), Node(3)], [Node(0), Node(1), Node(2)];
    assert L[..4] == l4 && l4[..3] == l3;
    DegreesM1(0);
    DegreesM1(1);
    DegreesM1(2);
    DegreesM1(3);
    DegreesM1(4);
    assert l3[..2] == [Node(0), Node(1)] && [Node(0), Node(1)][..1] == [Node(0)] && [Node(0)][..0] == [];
    assert FreeOf(M1, [Node(0), Node(1)]) == [];
    assert FreeOf(M1, l4) == [] + [Node(3)];
  }

  lemma {:induction false} TakenOne(c: seq<Node>, t: seq<bool>, w: nat)
    requires |c| == |t| && w <= |c| && forall i :: 0 <= i < |c| ==> (t[i] <==> i == w)
    ensures Taken(c, t) == if w < |c| then [c[w]] else []
    decreases |c|
  {
    if c != [] {
      TakenOne(c[1..], t[1..], if w == 0 then |c| - 1 else w - 1);
      assert w > 0 ==> [] + Taken(c[1..], t[1..]) == Taken(c[1..], t[1..]);
      assert w == 0 ==> forall i :: 0 <= i < |c| - 1 ==> !t[1..][i];
    }
  }

  /** A row that adds the candidate w only. */
  lemma {:induction false} RowOne(m: set<Edge>, level: nat, u: Node, rest: seq<Node>, layer: seq<Node>, used: set<Node>, w: nat)
    requires w < |Side(G, level)|
    requires forall i :: 0 <= i < |Side(G, level)| ==>
               (Side(G, level)[i] !in used && Step(G, m, level, Side(G, level)[i], u) <==> i == w)
    ensures var v := Side(G, level)[w];
            Expand(G, m, level, [u] + rest, layer, used) == Expand(G, m, level, rest, layer + [v], used + {v})
  {
    var c := Side(G, level);
    var t := seq(|c|, i => i == w);
    assert ([u] + rest)[1..] == rest;
    assert ToSet([c[w]]) == {c[w]};
    ScanTaken(m, level, u, c, layer, used, t);
    TakenOne(c, t, w);
  }

  /** RowOne on an odd level: the right node 5 + w. */
  lemma {:induction false} RightOne(level: nat, l: int, rest: seq<Node>, layer: seq<Node>, used: set<Node>, w: nat)
    requires level % 2 == 1 && w < 4
    requires forall r :: 5 <= r < 9 ==> (Node(r) !in used && Linked(l, r) && E(l, r) !in M1 <==> r == 5 + w)
    ensures Expand(G, M1, level, [Node(l)] + rest, layer, used)
         == Expand(G, M1, level, rest, layer + [Node(5 + w)], used + {Node(5 + w)})
  {
    forall i | 0 <= i < 4
      ensures R[i] !in used && Step(G, M1, level, R[i], Node(l)) <==> i == w
    {
      StepG(M1, level, l, 5 + i);
      assert R[i] == Node(5 + i);
    }
    RowOne(M1, level, Node(l), rest, layer, used, w);
  }

  /** RowOne on an even level: the left node w. */
  lemma {:induction false} LeftOne(level: nat, r: int, rest: seq<Node>, layer: seq<Node>, used: set<Node>, w: nat)
    requires level % 2 == 0 && w < 5
    requires forall l :: 0 <= l < 5 ==> (Node(l) !in used && Linked(l, r) && E(l, r) in M1 <==> l == w)
    ensures Expand(G, M1, level, [Node(r)] + rest, layer, used)
         == Expand(G, M1, level, rest, layer + [Node(w)], used + {Node(w)})
  {
    forall i | 0 <= i < 5
      ensures L[i] !in used && Step(G, M1, level, L[i], Node(r)) <==> i == w
    {
      StepG(M1, level, i, r);
      assert L[i] == Node(i);
    }
    RowOne(M1, level, Node(r), rest, layer, used, w);
  }

  lemma {:induction false} Layer2a()
    ensures var u := {Node(3), Node(4)};
            Expand(G, M1, 1, [Node(3), Node(4)], [], u) == ([Node(5), Node(6)], u + {Node(5)} + {Node(6)})
  {
    var u := {Node(3), Node(4)};
    assert [Node(3), Node(4)] == [Node(3)] + [Node(4)] && [Node(4)] == [Node(4)] + [] && [] + [Node(5)] == [Node(5)];
    RightOne(1, 3, [Node(4)], [], u, 0);
    RightOne(1, 4, [], [Node(5)], u + {Node(5)}, 1);
    assert [Node(5)] + [Node(6)] == [Node(5), Node(6)];
  }

  lemma {:induction false} Layer2b()
    ensures var u := {Node(3), Node(4)} + {Node(5)} + {Node(6)};
            Expand(G, M1, 2, [Node(5), Node(6)], [], u) == ([Node(0), Node(1)], u + {Node(0)} + {Node(1)})
  {
    var u := {Node(3), Node(4)} + {Node(5)} + {Node(6)};
    assert [Node(5), Node(6)] == [Node(5)] + [Node(6)] && [Node(6)] == [Node(6)] + [] && [] + [Node(0)] == [Node(0)];
    LeftOne(2, 5, [Node(6)], [], u, 0);
    LeftOne(2, 6, [], [Node(0)], u + {Node(0)}, 1);
    assert [Node(0)] + [Node(1)] == [Node(0), Node(1)];
  }

  lemma {:induction false} Layer2c()
    ensures var u := {Node(3), Node(4)} + {Node(5)} + {Node(6)} + {Node(0)} + {Node(1)};
            Expand(G, M1, 3, [Node(0), Node(1)], [], u) == ([Node(7), Node(8)], u + {Node(7)} + {Node(8)})
  {
    var u := {Node(3), Node(4)} + {Node(5)} + {Node(6)} + {Node(0)} + {Node(1)};
    assert [Node(0), Node(1)] == [Node(0)] + [Node(1)] && [Node(1)] == [Node(1)] + [] && [] + [Node(7)] == [Node(7)];
    RightOne(3, 0, [Node(1)], [], u, 2);
    RightOne(3, 1, [], [Node(7)], u + {Node(7)}, 3);
    assert [Node(7)] + [Node(8)] == [Node(7), Node(8)];
  }

  const LAYERS2: Layering := [[Node(3), Node(4)], [Node(5), Node(6)], [Node(0), Node(1)], [Node(7), Node(8)]]

  lemma {:induction false} FreeM1()
    ensures !HasFree(M1, [Node(5), Node(6)]) && HasFree(M1, [Node(7), Node(8)])
  {
    DegreesM1(5);
    DegreesM1(6);
    DegreesM1(8);
    assert Node(8) in [Node(7), Node(8)];
  }

  const U1 := {Node(3), Node(4)}
  const U2 := {Node(3), Node(4)} + {Node(5)} + {Node(6)}
  const U3 := {Node(3), Node(4)} + {Node(5)} + {Node(6)} + {Node(0)} + {Node(1)}

  lemma {:induction false} Known()
    ensures U1 <= G.Nodes() && U2 <= G.Nodes() && U3 <= G.Nodes()
  {
    assert L[0] in L && L[1] in L && L[3] in L && L[4] in L && R[0] in R && R[1] in R;
  }

  lemma {:induction false} Start2()
    ensures U1 <= G.Nodes() && GuideLayers(G, M1) == Layers(G, M1, [[Node(3), Node(4)]], U1)
  {
    Free2();
    assert ToSet([Node(3), Node(4)]) == U1;
    GuideOf(G, M1, [Node(3), Node(4)], U1);
  }

  lemma {:induction false} More2()
    requires U1 <= G.Nodes() && U2 <= G.Nodes() && U3 <= G.Nodes()
    ensures Layers(G, M1, [[Node(3), Node(4)]], U1)
         == Layers(G, M1, [[Node(3), Node(4)], [Node(5), Node(6)], [Node(0), Node(1)]], U3)
  {
    var a, b, c := [Node(3), Node(4)], [Node(5), Node(6)], [Node(0), Node(1)];
    FreeM1();
    Layer2a();
    NextOf(G, M1, [a], U1, b, U2);
    Layer2b();
    assert [a] + [b] == [a, b] && [a, b] + [c] == [a, b, c];
    NextOf(G, M1, [a, b], U2, c, U3);
  }

  /** The last layer holds the matched node 7 beside the free node 8. */
  lemma {:induction false} Guide2()
    ensures GuideLayers(G, M1) == LAYERS2
  {
    Known();
    Start2();
    More2();
    var abc := [[Node(3), Node(4)], [Node(5), Node(6)], [Node(0), Node(1)]];
    FreeM1();
    Layer2c();
    TopOf(G, M1, abc, U3, [Node(7), Node(8)], U3 + {Node(7)} + {Node(8)});
    assert abc + [[Node(7), Node(8)]] == LAYERS2;
  }

  lemma {:induction false} Down(m: set<Edge>, layers: Layering, v: Node, level: nat, used: set<Node>, u: Node, rest: seq<Node>,
      p: Path, q: Path)
    requires 0 < level < |layers| && layers[level - 1] == [u] + rest && u !in used + {v} && Step(G, m, level, v, u)
    requires Dfs(G, m, layers, u, level - 1, used + {v}) == Some(p) && q == [v] + p
    ensures Dfs(G, m, layers, v, level, used) == Some(q)
  {
    Take(m, layers, v, level, used + {v}, u, rest, p);
  }

  lemma {:induction false} DownSecond(m: set<Edge>, layers: Layering, v: Node, level: nat, used: set<Node>, w: Node, u: Node,
      p: Path, q: Path)
    requires 0 < level < |layers| && layers[level - 1] == [w, u] && w in used && u !in used + {v} && Step(G, m, level, v, u)
    requires Dfs(G, m, layers, u, level - 1, used + {v}) == Some(p) && q == [v] + p
    ensures Dfs(G, m, layers, v, level, used) == Some(q)
  {
    assert [w, u] == [w] + [u] && [u] == [u] + [];
    Skip(m, layers, v, level, used + {v}, w, [u]);
    Take(m, layers, v, level, used + {v}, u, [], p);
  }

  lemma {:induction false} Search7b()
    ensures Dfs(G, M1, LAYERS2, Node(7), 3, {}) == Some([Node(7), Node(0), Node(5), Node(3)])
  {
    var none: set<Node> := {};
    var u7 := none + {Node(7)};
    assert [Node(3), Node(4)] == [Node(3)] + [Node(4)] && [Node(5), Node(6)] == [Node(5)] + [Node(6)];
    assert [Node(0), Node(1)] == [Node(0)] + [Node(1)];
    StepG(M1, 1, 3, 5);
    Down(M1, LAYERS2, Node(5), 1, u7 + {Node(0)}, Node(3), [Node(4)], [Node(3)], [Node(5), Node(3)]);
    StepG(M1, 2, 0, 5);
    Down(M1, LAYERS2, Node(0), 2, u7, Node(5), [Node(6)], [Node(5), Node(3)], [Node(0), Node(5), Node(3)]);
    StepG(M1, 3, 0, 7);
    Down(M1, LAYERS2, Node(7), 3, none, Node(0), [Node(1)], [Node(0), Node(5), Node(3)], [Node(7), Node(0), Node(5), Node(3)]);
  }

  lemma {:induction false} Search8b()
    ensures Dfs(G, M1, LAYERS2, Node(8), 3, {Node(7), Node(0), Node(5), Node(3)}) == Some([Node(8), Node(1), Node(6), Node(4)])
  {
    var used := {Node(7), Node(0), Node(5), Node(3)};
    StepG(M1, 1, 4, 6);
    DownSecond(M1, LAYERS2, Node(6), 1, used + {Node(8)} + {Node(1)}, Node(3), Node(4), [Node(4)], [Node(6), Node(4)]);
    StepG(M1, 2, 1, 6);
    DownSecond(M1, LAYERS2, Node(1), 2, used + {Node(8)}, Node(5), Node(6), [Node(6), Node(4)], [Node(1), Node(6), Node(4)]);
    StepG(M1, 3, 1, 8);
    DownSecond(M1, LAYERS2, Node(8), 3, used, Node(0), Node(1), [Node(1), Node(6), Node(4)],
               [Node(8), Node(1), Node(6), Node(4)]);
  }

  const P2: seq<Path> := [[Node(7), Node(0), Node(5), Node(3)], [Node(8), Node(1), Node(6), Node(4)]]

  lemma {:induction false} Collect2()
    ensures Collect(G, M1, LAYERS2, [Node(8)], ToSet(P2[0])) == [P2[1]]
  {
    assert [Node(8)] == [Node(8)] + [];
    assert ToSet(P2[0]) == {Node(7), Node(0), Node(5), Node(3)};
    Search8b();
    Found(M1, LAYERS2, Node(8), [], ToSet(P2[0]), P2[1], ToSet(P2[0]) + ToSet(P2[1]));
  }

  lemma {:induction false} Phase2()
    ensures Phase(G, M1) == P2
  {
    var none: set<Node> := {};
    Guide2();
    PhaseOf(G, M1, LAYERS2);
    assert [Node(7), Node(8)] == [Node(7)] + [Node(8)] && none + ToSet(P2[0]) == ToSet(P2[0]);
    Search7b();
    Found(M1, LAYERS2, Node(7), [Node(8)], none, P2[0], ToSet(P2[0]));
    Collect2();
  }

  /** The result of the run: the right node 7 is used twice. */
  const M2: set<Edge> := {E(2, 7), E(0, 7), E(3, 5), E(1, 8), E(4, 6)}

  lemma {:induction false} Slap4(a: Node, b: Node, c: Node, d: Node)
    ensures Slap([a, b, c, d]) == [Edge(b, a), Edge(b, c), Edge(d, c)]
  {
    assert [a, b, c, d][1..] == [b, c, d] && [b, c, d][1..] == [c, d] && [c, d][1..] == [d];
    assert PathEdges([c, d], 1) == [Edge(d, c)];
    assert PathEdges([b, c, d], 2) == [Edge(b, c), Edge(d, c)];
  }

  lemma {:induction false} FlipThree(m: set<Edge>, a: Edge, b: Edge, c: Edge)
    requires a !in m && b in m && c !in m && a != b && b != c && a != c
    ensures SymDiff(m, [a, b, c]) == m + {a} - {b} + {c}
  {
    assert [a, b, c][1..] == [b, c] && [b, c][1..] == [c] && [c][1..] == [];
    assert SymDiff(m + {a} - {b}, [c]) == m + {a} - {b} + {c};
    assert SymDiff(m + {a}, [b, c]) == m + {a} - {b} + {c};
  }

  lemma {:induction false} Flip2()
    ensures FlipAll(M1, P2) == M2
  {
    Slap4(Node(7), Node(0), Node(5), Node(3));
    Slap4(Node(8), Node(1), Node(6), Node(4));
    FlipThree(M1, E(0, 7), E(0, 5), E(3, 5));
    var half := M1 + {E(0, 7)} - {E(0, 5)} + {E(3, 5)};
    FlipThree(half, E(1, 8), E(1, 6), E(4, 6));
    assert half + {E(1, 8)} - {E(1, 6)} + {E(4, 6)} == M2;
    assert P2[1..] == [P2[1]] && P2[1..][1..] == [];
    assert FlipAll(half, [P2[1]]) == M2;
  }

  lemma {:induction false} NoneFree(m: set<Edge>, nodes: seq<Node>)
    requires forall v :: v in nodes ==> Degree(m, v) != 0
    ensures FreeOf(m, nodes) == []
  {
    if nodes != [] {
      var v := nodes[|nodes| - 1];
      assert v in nodes && Degree(m, v) != 0;
      NoneFree(m, nodes[..|nodes| - 1]);
    }
  }

  lemma {:induction false} Phase3()
    ensures Phase(G, M2) == []
  {
    assert E(0, 7) in M2 && E(1, 8) in M2 && E(2, 7) in M2 && E(3, 5) in M2 && E(4, 6) in M2;
    forall v | v in L
      ensures Degree(M2, v) != 0
    {
      DegreeZero(M2, v);
    }
    NoneFree(M2, L);
  }

  lemma {:induction false} BipartiteG()
    ensures G.Bipartite()
  {
    assert L[0] in L && L[1] in L && L[2] in L && L[3] in L && L[4] in L;
    assert R[0] in R && R[1] in R && R[2] in R && R[3] in R;
  }

  lemma {:induction false} DistinctG()
    ensures Distinct(L) && Distinct(R)
  {
    DistinctIndices(L);
    DistinctIndices(R);
  }

  lemma {:induction false} DistinctEdges()
    ensures Distinct(G.edges)
  {
    DistinctIndices(G.edges);
  }

  lemma {:induction false} Run()
    requires G.Valid() && Koenig.LeftOnce(G, {})
    ensures Largest(G, {}) == M2
  {
    Phase1();
    Flip1();
    PhaseStepBounded(G, {});
    Phase2();
    Flip2();
    PhaseStepBounded(G, M1);
    Phase3();
    assert Largest(G, M2) == M2;
    assert Largest(G, M1) == M2;
  }

  lemma {:induction false} NoMatchingM2()
    ensures |M2| == 5 && !IsMatching(M2)
  {
    if IsMatching(M2) {
      DegreeOne(M2, Node(7), E(2, 7), E(0, 7));
    }
  }

  lemma {:induction false} AtMostFour(n: set<Edge>)
    requires G.Bipartite() && IsMatching(n) && forall e :: e in n ==> e in G.edges
    ensures |n| <= 4
  {
    ToSetSize(G.right);
    Koenig.MatchingFitsRight(G, n);
  }

  /** The result has five edges and is not a matching; a matching has four at most. */
  lemma {:induction false} LargestIsNoMatching()
    ensures G.Valid() && Koenig.LeftOnce(G, {})
    ensures |Largest(G, {})| == 5 && !IsMatching(Largest(G, {}))
    ensures forall n: set<Edge> :: IsMatching(n) && (forall e :: e in n ==> e in G.edges) ==> |n| <= 4
  {
    BipartiteG();
    DistinctG();
    DistinctEdges();
    Koenig.NothingOnce(G);
    Run();
    NoMatchingM2();
    forall n: set<Edge> | IsMatching(n) && (forall e :: e in n ==> e in G.edges)
      ensures |n| <= 4
    {
      AtMostFour(n);
    }
  }
}
