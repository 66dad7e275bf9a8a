/** The parallel partition of a spec list, ginkgo internal/spec. */
module Specs {
  /** First index and number of specs of a node; nodes count from 1. */
  function ParallelizedIndexRange(length: nat, total: nat, node: int): (r: (int, int))
    requires total >= 1
  {
    if length == 0 then (0, 0)
    else if total >= length then
      if node > length then (0, 0) else (node - 1, 1)
    else
      var min := length / total;
      var max := if length % total != 0 then min + 1 else min;
      var maxNodes := length % total;
      var precedingMax := if node > maxNodes then maxNodes else node - 1;
      var precedingMin := if node <= maxNodes then 0 else node - maxNodes - 1;
      (precedingMax * max + precedingMin * min, if node > maxNodes then min else max)
  }

  /** How many specs the first k nodes have: the larger shares come first. */
  function Boundary(length: nat, total: nat, k: nat): nat
    requires total >= 1
  {
    k * (length / total) + if k < length % total then k else length % total
  }

  lemma {:induction false} LastBoundary(length: nat, total: nat)
    requires total >= 1
    ensures Boundary(length, total, total) == length && Boundary(length, total, 0) == 0
  {
    assert length == total * (length / total) + length % total;
  }

  lemma {:induction false} NextBoundary(length: nat, total: nat, k: nat)
    requires total >= 1
    ensures Boundary(length, total, k + 1) - Boundary(length, total, k) ==
            length / total + if k < length % total then 1 else 0
  {
    assert (k + 1) * (length / total) == k * (length / total) + length / total;
  }

  /** The products in a start index, for quotient q and remainder r. */
  lemma {:induction false} StartProducts(q: nat, r: nat, node: nat)
    requires node >= 1
    ensures node > r ==> r * (q + 1) + (node - r - 1) * q == (node - 1) * q + r
    ensures (node - 1) * (q + 1) == (node - 1) * q + (node - 1)
  {
    assert r * (q + 1) == r * q + r;
    if node > r {
      assert (node - r - 1) * q == (node - 1) * q - r * q by {
        assert (node - 1) * q == (r + (node - r - 1)) * q;
      }
    }
  }

  predicate IsRange(length: nat, total: nat, node: nat, r: (int, int))
    requires 1 <= node <= total
  {
    && r.1 == Boundary(length, total, node) - Boundary(length, total, node - 1)
    && (r.1 > 0 ==> r.0 == Boundary(length, total, node - 1))
    && (r.1 == length / total || r.1 == length / total + 1)
  }

  lemma {:induction false} Quotients(length: nat, total: nat)
    requires total >= length > 0
    ensures length / total == (if total > length then 0 else 1)
    ensures length % total == if total > length then length else 0
  {
  }

  lemma {:induction false} FewBoundary(length: nat, total: nat, k: nat)
    requires total >= length > 0 && k <= total
    ensures Boundary(length, total, k) == if k < length then k else length
  {
    Quotients(length, total);
    var q := length / total;
    assert k * q == if total > length then 0 else k;
  }

  lemma {:induction false} FewSpecs(length: nat, total: nat, node: nat)
    requires 1 <= node <= total && total >= length
    ensures IsRange(length, total, node, ParallelizedIndexRange(length, total, node))
  {
    if length > 0 {
      Quotients(length, total);
      FewBoundary(length, total, node);
      FewBoundary(length, total, node - 1);
    } else {
      NoSpecs(total, node);
    }
  }

  lemma {:induction false} NoSpecs(total: nat, node: nat)
    requires 1 <= node <= total
    ensures IsRange(0, total, node, (0, 0))
  {
    assert 0 / total == 0 && 0 % total == 0;
    assert node * 0 == 0 && (node - 1) * 0 == 0;
  }

  lemma {:induction false} ManySpecs(length: nat, total: nat, node: nat, q: nat, r: nat)
    requires 1 <= node <= total < length && q == length / total && r == length % total
    ensures IsRange(length, total, node, ParallelizedIndexRange(length, total, node))
  {
    NextBoundary(length, total, node - 1);
    StartProducts(q, r, node);
    if r == 0 {
      assert r * q == 0 && (node - 0 - 1) * q == (node - 1) * q;
    }
  }

  /** A node has the specs between two boundaries, so the ranges touch and shares differ by at most one. */
  lemma {:induction false} RangeIs(length: nat, total: nat, node: nat)
    requires 1 <= node <= total
    ensures IsRange(length, total, node, ParallelizedIndexRange(length, total, node))
  {
    if total >= length {
      FewSpecs(length, total, node);
    } else {
      ManySpecs(length, total, node, length / total, length % total);
    }
  }

  lemma {:induction false} BoundariesGrow(length: nat, total: nat, j: nat, k: nat)
    requires total >= 1 && j <= k
    ensures Boundary(length, total, j) <= Boundary(length, total, k)
    decreases k - j
  {
    if j < k {
      NextBoundary(length, total, k - 1);
      BoundariesGrow(length, total, j, k - 1);
    }
  }

  class SpecList<T> {
    var specs: seq<T>

    constructor (specs: seq<T>)
      ensures this.specs == specs
    {
      this.specs := specs;
    }

    /** The caller passes a node between 1 and total. */
    method TrimForParallelization(total: nat, node: nat)
      requires 1 <= node <= total
      modifies this
      ensures specs == Share(old(specs), total, node)
    {
      var (start, count) := ParallelizedIndexRange(|specs|, total, node);
      RangeIs(|specs|, total, node);
      LastBoundary(|specs|, total);
      BoundariesGrow(|specs|, total, 0, node - 1);
      BoundariesGrow(|specs|, total, node, total);
      if count == 0 {
        specs := [];
      } else {
        specs := specs[start..start + count];
      }
    }
  }

  /** The specs of a node, by the boundaries. */
  function Share<T>(specs: seq<T>, total: nat, node: nat): seq<T>
    requires 1 <= node <= total
  {
    BoundariesGrow(|specs|, total, node - 1, node);
    LastBoundary(|specs|, total);
    BoundariesGrow(|specs|, total, node, total);
    specs[Boundary(|specs|, total, node - 1)..Boundary(|specs|, total, node)]
  }

  function Shares<T>(specs: seq<T>, total: nat, nodes: nat): seq<T>
    requires nodes <= total && total >= 1
  {
    if nodes == 0 then [] else Shares(specs, total, nodes - 1) + Share(specs, total, nodes)
  }

  lemma {:induction false} SharesPrefix<T>(specs: seq<T>, total: nat, nodes: nat)
    requires nodes <= total && total >= 1
    ensures Boundary(|specs|, total, nodes) <= |specs|
    ensures Shares(specs, total, nodes) == specs[..Boundary(|specs|, total, nodes)]
  {
    LastBoundary(|specs|, total);
    BoundariesGrow(|specs|, total, nodes, total);
    if nodes > 0 {
      SharesPrefix(specs, total, nodes - 1);
      BoundariesGrow(|specs|, total, nodes - 1, nodes);
    }
  }

  /** The trimmed lists of all nodes, one after the other, are the whole list: every spec runs on exactly one node. */
  lemma {:induction false} SharesCover<T>(specs: seq<T>, total: nat)
    requires total >= 1
    ensures Shares(specs, total, total) == specs
  {
    SharesPrefix(specs, total, total);
    LastBoundary(|specs|, total);
  }
}
