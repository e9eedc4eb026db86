/** The bill of materials for a physical octoflake (`NodeMath.py`): how many
    nodes and edges a flake with a given edge length needs. Each doubling of
    the edge length puts six copies of the previous flake together and
    removes the nodes and edges they share. */
module NodeMath {

  /** `Bom(edgeLength, nodes, edges)`. */
  datatype Bom = Bom(edgeLength: int, nodes: int, edges: int)

  /** `first`: a single octahedron has six nodes and twelve edges. */
  const First := Bom(1, 6, 12)

  /** `x` is one of 1, 2, 4, 8, ... */
  predicate IsPowerOfTwo(x: int)
    decreases x
  {
    x >= 1 && (x == 1 || (x % 2 == 0 && IsPowerOfTwo(x / 2)))
  }

  function Power(b: nat, k: nat): (r: nat)
    ensures b >= 1 ==> r >= 1
  {
    if k == 0 then 1 else b * Power(b, k - 1)
  }

  /** `octoflake_stats`: the flake of edge length 1 is a single octahedron;
      a larger one is built from six copies of the flake of half the length
      (rounded down), so the edge length reached is the largest power of two
      not above the one asked for. The source recurses forever below 1. */
  function OctoflakeStats(edgeLength: int): (r: Bom)
    requires edgeLength >= 1
    ensures IsPowerOfTwo(r.edgeLength)
    ensures r.edgeLength <= edgeLength < 2 * r.edgeLength
    decreases edgeLength
  {
    if edgeLength == 1 then First
    else
      var last := OctoflakeStats(edgeLength / 2);
      var next := 2 * last.edgeLength;
      var duplicateNodes := 6 * next + 5;
      var duplicateEdges := 6 * next;
      Bom(next, 6 * last.nodes - duplicateNodes, 6 * last.edges - duplicateEdges)
  }

  /** Doubling the edge length doubles the edge length reached and combines
      six copies of the smaller flake, less the shared nodes and edges. */
  lemma StatsDouble(edgeLength: int)
    requires edgeLength >= 1
    ensures var prev, next := OctoflakeStats(edgeLength), OctoflakeStats(2 * edgeLength);
      next.edgeLength == 2 * prev.edgeLength &&
      next.nodes == 6 * prev.nodes - (6 * next.edgeLength + 5) &&
      next.edges == 6 * prev.edges - 6 * next.edgeLength
  {
    assert (2 * edgeLength) / 2 == edgeLength;
  }

  /** The figures depend only on the power of two reached: asking for a
      length that is not a power of two gives the flake of the largest power
      of two below it. */
  lemma {:induction false} StatsRoundDown(edgeLength: int)
    requires edgeLength >= 1
    ensures OctoflakeStats(edgeLength) == OctoflakeStats(OctoflakeStats(edgeLength).edgeLength)
    decreases edgeLength
  {
    if edgeLength > 1 {
      var half := edgeLength / 2;
      StatsRoundDown(half);
      var l := OctoflakeStats(half).edgeLength;
      assert (2 * l) / 2 == l;
    }
  }

  /** The closed form of the recurrence: the flake of edge length `2^k` has
      `2·6^k + 3·2^k + 1` nodes and `9·6^k + 3·2^k` edges. */
  lemma {:induction false} StatsClosedForm(k: nat)
    ensures OctoflakeStats(Power(2, k)) ==
      Bom(Power(2, k), 2 * Power(6, k) + 3 * Power(2, k) + 1, 9 * Power(6, k) + 3 * Power(2, k))
  {
    if k > 0 {
      StatsClosedForm(k - 1);
      var p2, p6 := Power(2, k - 1), Power(6, k - 1);
      assert Power(2, k) == 2 * p2 && Power(6, k) == 6 * p6;
      assert Power(2, k) / 2 == p2;
    }
  }

  /** The flake the module prints: edge length 8 takes 457 nodes and 1968
      edges. */
  lemma StatsOfEight()
    ensures OctoflakeStats(8) == Bom(8, 457, 1968)
  {
    StatsClosedForm(3);
    assert Power(2, 3) == 8 && Power(6, 3) == 216;
  }
}
