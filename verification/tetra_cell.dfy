/** The tetrahedron cell (`TetraCell.py`): its corner trims, the orientation
    flip, and the belt structure of `render`. */
module TetraCell {
  import opened Vector
  import opened OctoUtil
  import Mesh

  datatype TetraFlags = TetraFlags(trimNe: bool, trimNw: bool, trimSw: bool, trimSe: bool, flip: bool)

  const Fresh := TetraFlags(false, false, false, false, false)

  /** The vertical direction of the probes: up when the coordinate sum is 3
      modulo 4, down otherwise. */
  function ProbeSign(c: Vec): (r: int)
    ensures r == 1 || r == -1
    ensures r == 1 <==> (c.x + c.y + c.z) % 4 == 3
  {
    if (c.x + c.y + c.z) % 4 == 3 then 1 else -1
  }

  /** The two neighbours probed for each diagonal trim. A probe steps along the
      diagonal, two more steps along one of its cardinal directions, and one
      step vertically: against the sign for NE and SW, with it for NW and SE. */
  function Probes(c: Vec, d: Diag): (r: (Vec, Vec))
  {
    var s := ProbeSign(c);
    match d
    case DSw => (Vec(c.x - 3, c.y - 1, c.z - s), Vec(c.x - 1, c.y - 3, c.z - s))
    case DSe => (Vec(c.x + 3, c.y - 1, c.z + s), Vec(c.x + 1, c.y - 3, c.z + s))
    case DNw => (Vec(c.x - 3, c.y + 1, c.z + s), Vec(c.x - 1, c.y + 3, c.z + s))
    case DNe => (Vec(c.x + 3, c.y + 1, c.z - s), Vec(c.x + 1, c.y + 3, c.z - s))
  }

  /** The probes are the source's sums `center + -Z * flip + SW + 2 * W` and so on. */
  lemma ProbesAreSourceOffsets(c: Vec)
    ensures var s := ProbeSign(c);
      Probes(c, DSw) == (Add(Add(Add(c, Scale(Neg(Z), s)), SW), Scale(W, 2)),
                         Add(Add(Add(c, Scale(Neg(Z), s)), SW), Scale(S, 2))) &&
      Probes(c, DSe) == (Add(Add(Add(c, Scale(Z, s)), SE), Scale(E, 2)),
                         Add(Add(Add(c, Scale(Z, s)), SE), Scale(S, 2))) &&
      Probes(c, DNw) == (Add(Add(Add(c, Scale(Z, s)), NW), Scale(W, 2)),
                         Add(Add(Add(c, Scale(Z, s)), NW), Scale(N, 2))) &&
      Probes(c, DNe) == (Add(Add(Add(c, Scale(Neg(Z), s)), NE), Scale(E, 2)),
                         Add(Add(Add(c, Scale(Neg(Z), s)), NE), Scale(N, 2)))
  {
    var s := ProbeSign(c);
    var up, down := Scale(Z, s), Scale(Neg(Z), s);
    if s == 1 {
      assert up == Vec(0, 0, 1) && down == Vec(0, 0, -1);
    } else {
      assert up == Vec(0, 0, -1) && down == Vec(0, 0, 1);
    }
    assert up == Vec(0, 0, s) && down == Vec(0, 0, -s);
    assert Scale(W, 2) == Vec(-2, 0, 0) && Scale(E, 2) == Vec(2, 0, 0);
    assert Scale(S, 2) == Vec(0, -2, 0) && Scale(N, 2) == Vec(0, 2, 0);
    assert Probes(c, DSw) == (Add(Add(Add(c, down), SW), Scale(W, 2)), Add(Add(Add(c, down), SW), Scale(S, 2)));
    assert Probes(c, DSe) == (Add(Add(Add(c, up), SE), Scale(E, 2)), Add(Add(Add(c, up), SE), Scale(S, 2)));
    assert Probes(c, DNw) == (Add(Add(Add(c, up), NW), Scale(W, 2)), Add(Add(Add(c, up), NW), Scale(N, 2)));
  }

  /** Every probe lies on the diagonal's side of the cell: its horizontal offset
      from the centre points the same way as the diagonal in both axes. */
  lemma ProbesOnDiagonalSide(c: Vec, d: Diag)
    ensures var (p, q) := Probes(c, d); var v := DiagVec(d);
      (p.x - c.x) * v.x > 0 && (p.y - c.y) * v.y > 0 &&
      (q.x - c.x) * v.x > 0 && (q.y - c.y) * v.y > 0
  {
  }

  function TrimFlag(f: TetraFlags, d: Diag): bool
  {
    match d
    case DNe => f.trimNe
    case DNw => f.trimNw
    case DSw => f.trimSw
    case DSe => f.trimSe
  }

  /** `TetraCell.trim`: a diagonal is trimmed iff either of its probes is
      occupied, and the cell is flipped iff its coordinate sum is 1 modulo 4.
      Every flag is recomputed, so the previous flags play no part. */
  function Trim(c: Vec, occ: set<Vec>): (r: TetraFlags)
    ensures forall d :: TrimFlag(r, d) <==> Probes(c, d).0 in occ || Probes(c, d).1 in occ
    ensures r.flip <==> (c.x + c.y + c.z) % 4 == 1
  {
    var sw, se, nw, ne := Probes(c, DSw), Probes(c, DSe), Probes(c, DNw), Probes(c, DNe);
    TetraFlags(
      trimNe := ne.0 in occ || ne.1 in occ,
      trimNw := nw.0 in occ || nw.1 in occ,
      trimSw := sw.0 in occ || sw.1 in occ,
      trimSe := se.0 in occ || se.1 in occ,
      flip := (c.x + c.y + c.z) % 4 == 1)
  }

  /** The flip depends on the position only, never on the neighbours. */
  lemma FlipIgnoresOccupancy(c: Vec, occ: set<Vec>, occ': set<Vec>)
    ensures Trim(c, occ).flip == Trim(c, occ').flip
  {
  }

  /** At a coordinate with an odd coordinate sum (every tetrahedron site has
      one) the sum is 1 or 3 modulo 4, so the probes point down exactly when
      the cell is flipped. */
  lemma FlipMatchesProbeSign(c: Vec, occ: set<Vec>)
    requires (c.x + c.y + c.z) % 2 == 1
    ensures Trim(c, occ).flip <==> ProbeSign(c) == -1
  {
    OddModFour(c.x + c.y + c.z);
  }

  lemma OddModFour(t: int)
    requires t % 2 == 1
    ensures t % 4 == 1 || t % 4 == 3
  {
  }

  /** Occupancy further from a corner never removes a trim: adding coordinates
      only turns trims on. */
  lemma TrimMonotone(c: Vec, occ: set<Vec>, occ': set<Vec>, d: Diag)
    requires occ <= occ'
    ensures TrimFlag(Trim(c, occ), d) ==> TrimFlag(Trim(c, occ'), d)
  {
  }

  // The belt structure of `TetraCell.render`.

  /** The four belts: top, the one under it, the one over the bottom, bottom. */
  const BeltCount := 4

  /** The corner of the tetrahedron a vertex is derived from: top belts hang
      off the NW and SE apexes, bottom belts off the NE and SW apexes. */
  function Apex(belt: nat, slot: nat): Diag
  {
    if belt <= 1 then (if slot <= 1 then DNw else DSe)
    else (if slot == 0 || slot == 3 then DNe else DSw)
  }

  /** Slot `slot` of belt `belt` before any flip; `bevelled` says a trim pulled
      it back, `mirrored` that its z coordinate was negated by the flip. */
  datatype TVertex = TVertex(belt: nat, slot: nat, apex: Diag, bevelled: bool, mirrored: bool)

  /** The belts before the flip, with the trims applied to the outer belts. */
  function Unflipped(f: TetraFlags): seq<seq<TVertex>>
  {
    seq(BeltCount, j requires 0 <= j < BeltCount =>
      seq(4, i requires 0 <= i < 4 =>
        TVertex(j, i, Apex(j, i), Bevelled(f, j, i), false)))
  }

  /** Which outer-belt slots the trims move: NE bottom 0 and 3, NW top 0 and 1,
      SW bottom 1 and 2, SE top 2 and 3. */
  function Bevelled(f: TetraFlags, belt: nat, slot: nat): bool
  {
    (f.trimNe && belt == 3 && (slot == 0 || slot == 3)) ||
    (f.trimNw && belt == 0 && (slot == 0 || slot == 1)) ||
    (f.trimSw && belt == 3 && (slot == 1 || slot == 2)) ||
    (f.trimSe && belt == 0 && (slot == 2 || slot == 3))
  }

  /** Negating z and reversing the vertex order of every belt. */
  function FlipBelts(belts: seq<seq<TVertex>>): (r: seq<seq<TVertex>>)
  {
    seq(|belts|, j requires 0 <= j < |belts| =>
      seq(|belts[j]|, i requires 0 <= i < |belts[j]| =>
        var v := belts[j][|belts[j]| - 1 - i];
        v.(mirrored := !v.mirrored)))
  }

  /** Flipping twice restores the belts. */
  lemma FlipBeltsInvolution(belts: seq<seq<TVertex>>)
    ensures FlipBelts(FlipBelts(belts)) == belts
  {
    var r := FlipBelts(FlipBelts(belts));
    assert |r| == |belts|;
    forall j | 0 <= j < |belts| ensures r[j] == belts[j] {
      assert |r[j]| == |belts[j]|;
      forall i | 0 <= i < |belts[j]| ensures r[j][i] == belts[j][i] {
        var n := |belts[j]|;
        assert FlipBelts(belts)[j][n - 1 - i] == belts[j][i].(mirrored := !belts[j][i].mirrored);
      }
    }
  }

  /** `TetraCell.render`, as belt structure: always four belts of four vertices;
      a trim bevels exactly the outer-belt vertices next to its own apex; and
      when flipped every vertex is mirrored and each belt is read backwards. */
  function Render(f: TetraFlags): (r: seq<seq<TVertex>>)
    ensures |r| == 4
    ensures forall j :: 0 <= j < 4 ==> |r[j]| == 4
    ensures forall j, i :: 0 <= j < 4 && 0 <= i < 4 ==>
      var v := r[j][i];
      v.belt == j && v.slot == (if f.flip then 3 - i else i) &&
      v.mirrored == f.flip && v.apex == Apex(j, v.slot) &&
      (v.bevelled <==> (j == 0 || j == 3) && TrimFlag(f, v.apex))
  {
    var belts := Unflipped(f);
    if f.flip then FlipBelts(belts) else belts
  }

  /** Read through the apexes, the rendered bevels are exactly the slot table
      of the source: NE moves bottom slots 0 and 3, NW top 0 and 1, SW bottom
      1 and 2, SE top 2 and 3, whether or not the cell is flipped. */
  lemma RenderBevels(f: TetraFlags)
    ensures forall j, i :: 0 <= j < 4 && 0 <= i < 4 ==>
      (Render(f)[j][i].bevelled <==> Bevelled(f, j, Render(f)[j][i].slot))
  {
  }

  /** A tetrahedron mesh always has two caps and twelve quads. */
  lemma RenderFaceCount(f: TetraFlags)
    ensures Mesh.Rectangular(Render(f))
    ensures |Mesh.Polygons(Render(f))| == 14
  {
    Mesh.PolygonsCount(Render(f));
  }
}
