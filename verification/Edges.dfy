/** Nodes, edges and edge sets of goraph. */
module Edges {
  import opened Bytes

  datatype Node = Node(id: int)

  datatype Edge = Edge(node1: Node, node2: Node) {
    predicate Touches(v: Node) {
      node1 == v || node2 == v
    }
  }

  type EdgeSet = seq<Edge>

  predicate Free(ec: EdgeSet, node: Node) {
    forall e :: e in ec ==> !e.Touches(node)
  }

  function FindByNodes(ec: EdgeSet, a: Node, b: Node): (r: Option<Edge>)
    ensures r.Some? ==> r.value in ec && (r.value == Edge(a, b) || r.value == Edge(b, a))
    ensures r.None? ==> Edge(a, b) !in ec && Edge(b, a) !in ec
  {
    if ec == [] then None
    else if ec[0] == Edge(a, b) || ec[0] == Edge(b, a) then Some(ec[0])
    else FindByNodes(ec[1..], a, b)
  }

  ghost function ToSet<T>(s: seq<T>): set<T> {
    set x | x in s
  }

  // Degrees -------------------------------------------------------------------------

  ghost function Incident(m: set<Edge>, v: Node): set<Edge> {
    set e | e in m && e.Touches(v)
  }

  ghost function Degree(m: set<Edge>, v: Node): nat {
    |Incident(m, v)|
  }

  /** No two edges share a node. */
  ghost predicate IsMatching(m: set<Edge>) {
    forall v :: Degree(m, v) <= 1
  }

  lemma {:induction false} DegreeZero(m: set<Edge>, v: Node)
    ensures Degree(m, v) == 0 <==> forall e :: e in m ==> !e.Touches(v)
  {
    if Degree(m, v) == 0 {
      forall e | e in m
        ensures !e.Touches(v)
      {
        assert e !in Incident(m, v);
      }
    } else {
      assert exists e :: e in Incident(m, v);
    }
  }

  lemma {:induction false} DegreeOne(m: set<Edge>, v: Node, d: Edge, e: Edge)
    requires Degree(m, v) <= 1 && d in m && e in m && d.Touches(v) && e.Touches(v)
    ensures d == e
  {
    if d != e {
      var two := {d, e};
      assert two <= Incident(m, v);
      Subset(two, Incident(m, v));
    }
  }

  lemma {:induction false} Subset<T>(a: set<T>, b: set<T>)
    requires a <= b
    ensures |a| <= |b|
  {
    if a != {} {
      var x :| x in a;
      Subset(a - {x}, b - {x});
    }
  }

  // Symmetric difference ------------------------------------------------------------

  ghost function Toggle(m: set<Edge>, e: Edge): set<Edge> {
    if e in m then m - {e} else m + {e}
  }

  /** Toggles the edges of the second set one by one. */
  ghost function SymDiff(m: set<Edge>, es: EdgeSet): set<Edge>
    decreases |es|
  {
    if es == [] then m else SymDiff(Toggle(m, es[0]), es[1..])
  }

  lemma {:induction false} SymDiffOutside(m: set<Edge>, es: EdgeSet, e: Edge)
    requires e !in es
    ensures e in SymDiff(m, es) <==> e in m
    decreases |es|
  {
    if es != [] {
      SymDiffOutside(Toggle(m, es[0]), es[1..], e);
    }
  }

  /** On distinct edges this is the symmetric difference. */
  lemma {:induction false} SymDiffMember(m: set<Edge>, es: EdgeSet, e: Edge)
    requires forall i, j :: 0 <= i < j < |es| ==> es[i] != es[j]
    ensures e in SymDiff(m, es) <==> (e in m) != (e in es)
    decreases |es|
  {
    if es != [] {
      if e == es[0] {
        SymDiffOutside(Toggle(m, e), es[1..], e);
      } else {
        SymDiffMember(Toggle(m, es[0]), es[1..], e);
        assert e in es <==> e in es[1..];
      }
    }
  }

  lemma {:induction false} ToggleDegree(m: set<Edge>, e: Edge, v: Node)
    ensures var d: int := if !e.Touches(v) then 0 else if e in m then -1 else 1;
            Degree(Toggle(m, e), v) == Degree(m, v) + d
    ensures |Toggle(m, e)| == if e in m then |m| - 1 else |m| + 1
  {
    var a, b := Incident(m, v), Incident(Toggle(m, e), v);
    if !e.Touches(v) {
      assert a == b;
    } else if e in m {
      assert b == a - {e};
    } else {
      assert b == a + {e};
    }
  }

  /** The map iteration of the source lists the surviving edges in any order. */
  method SymmetricDifference(ec: EdgeSet, ec2: EdgeSet) returns (result: EdgeSet)
    ensures ToSet(result) == SymDiff(ToSet(ec), ec2)
    ensures forall i, j :: 0 <= i < j < |result| ==> result[i] != result[j]
  {
    var edgesToInclude: map<Edge, bool> := map[];
    for i := 0 to |ec|
      invariant Represents(edgesToInclude, ToSet(ec[..i]))
    {
      assert ec[..i + 1] == ec[..i] + [ec[i]];
      assert ToSet(ec[..i + 1]) == ToSet(ec[..i]) + {ec[i]};
      edgesToInclude := edgesToInclude[ec[i] := true];
    }
    assert ec[..|ec|] == ec;
    ghost var m := ToSet(ec);
    for i := 0 to |ec2|
      invariant Represents(edgesToInclude, m)
      invariant SymDiff(m, ec2[i..]) == SymDiff(ToSet(ec), ec2)
    {
      var e := ec2[i];
      assert ec2[i..][0] == e && ec2[i..][1..] == ec2[i + 1..];
      edgesToInclude := edgesToInclude[e := !Included(edgesToInclude, e)];
      m := Toggle(m, e);
    }
    result := [];
    var left := edgesToInclude.Keys;
    while left != {}
      invariant left <= edgesToInclude.Keys
      invariant forall e :: e in result <==> e !in left && Included(edgesToInclude, e)
      invariant forall i, j :: 0 <= i < j < |result| ==> result[i] != result[j]
      decreases left
    {
      var e :| e in left;
      left := left - {e};
      if edgesToInclude[e] {
        result := result + [e];
      }
    }
  }

  predicate Included(edgesToInclude: map<Edge, bool>, e: Edge) {
    e in edgesToInclude && edgesToInclude[e]
  }

  ghost predicate Represents(edgesToInclude: map<Edge, bool>, m: set<Edge>) {
    forall e :: Included(edgesToInclude, e) <==> e in m
  }
}
