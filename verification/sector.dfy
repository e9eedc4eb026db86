/** Orientations of the sector builder (`OctoSectorBuilder.py`): eight
    right-handed frames, the lookups that turn and flip them, and the
    tetrahedral corner of points `fill_sector` inserts. */
module Sector {
  import opened Vector
  import opened OctoUtil
  import Grid
  import OctoCell

  /** U/D is the sign of the frame's z axis; NE, NW, SW, SE name its quadrant. */
  datatype Orientation = UNE | UNW | USW | USE | DNE | DNW | DSW | DSE

  datatype Frame = Frame(x: Vec, y: Vec, z: Vec)

  /** The axis triples of the eight named orientations. */
  function Axes(o: Orientation): Frame
  {
    match o
    case UNE => Frame(Vec(1, 0, 0), Vec(0, 1, 0), Vec(0, 0, 1))
    case UNW => Frame(Vec(0, 1, 0), Vec(-1, 0, 0), Vec(0, 0, 1))
    case USW => Frame(Vec(-1, 0, 0), Vec(0, -1, 0), Vec(0, 0, 1))
    case USE => Frame(Vec(0, -1, 0), Vec(1, 0, 0), Vec(0, 0, 1))
    case DNE => Frame(Vec(0, 1, 0), Vec(1, 0, 0), Vec(0, 0, -1))
    case DNW => Frame(Vec(-1, 0, 0), Vec(0, 1, 0), Vec(0, 0, -1))
    case DSW => Frame(Vec(0, -1, 0), Vec(-1, 0, 0), Vec(0, 0, -1))
    case DSE => Frame(Vec(1, 0, 0), Vec(0, -1, 0), Vec(0, 0, -1))
  }

  function Dot(a: Vec, b: Vec): int
  {
    a.x * b.x + a.y * b.y + a.z * b.z
  }

  /** A quarter turn clockwise seen from above: the inverse of `TurnCcw`. */
  function TurnCw(v: Vec): Vec
  {
    Vec(v.y, -v.x, v.z)
  }

  predicate IsUp(o: Orientation)
  {
    o.UNE? || o.UNW? || o.USW? || o.USE?
  }

  /** A frame with horizontal x and y axes is right-handed (x cross y is z)
      when y is x turned a quarter counter-clockwise about z: seen from above,
      counter-clockwise for an upward z and clockwise for a downward one. */
  predicate RightHanded(f: Frame)
  {
    f.x.z == 0 &&
    ((f.z == Up && f.y == TurnCcw(f.x)) || (f.z == Down && f.y == TurnCw(f.x)))
  }

  /** Every orientation is a right-handed frame whose z axis points up exactly
      for the U orientations. */
  lemma AxesRightHanded(o: Orientation)
    ensures RightHanded(Axes(o))
    ensures Axes(o).z == (if IsUp(o) then Up else Down)
  {
  }

  /** `LEFT_LOOKUP`: the U orientations cycle UNE, UNW, USW, USE; the D ones
      DNE, DSE, DSW, DNW. */
  function TurnLeft(o: Orientation): (r: Orientation)
    ensures IsUp(r) <==> IsUp(o)
    ensures r != o
  {
    match o
    case UNE => UNW
    case UNW => USW
    case USW => USE
    case USE => UNE
    case DNE => DSE
    case DNW => DNE
    case DSW => DNW
    case DSE => DSW
  }

  /** `turn_right`: the inverse lookup of the same table. */
  function TurnRight(o: Orientation): (r: Orientation)
    ensures TurnLeft(r) == o
  {
    match o
    case UNW => UNE
    case USW => UNW
    case USE => USW
    case UNE => USE
    case DSE => DNE
    case DNE => DNW
    case DNW => DSW
    case DSW => DSE
  }

  /** `flip_z`: U and D orientations of the same quadrant trade places, in
      whichever direction the table is read. */
  function FlipZ(o: Orientation): (r: Orientation)
    ensures IsUp(r) <==> !IsUp(o)
  {
    match o
    case UNE => DNE
    case UNW => DNW
    case USW => DSW
    case USE => DSE
    case DNE => UNE
    case DNW => UNW
    case DSW => USW
    case DSE => USE
  }

  lemma TurnsInverse(o: Orientation)
    ensures TurnRight(TurnLeft(o)) == o
    ensures TurnLeft(TurnRight(o)) == o
  {
  }

  lemma FourLeftsIdentity(o: Orientation)
    ensures TurnLeft(TurnLeft(TurnLeft(TurnLeft(o)))) == o
    ensures TurnLeft(TurnLeft(o)) != o
  {
  }

  lemma FlipZInvolution(o: Orientation)
    ensures FlipZ(FlipZ(o)) == o
    ensures IsUp(FlipZ(o)) <==> !IsUp(o)
  {
  }

  /** The frame of `TurnLeft(o)` is that of `o` turned a quarter about its own z axis. */
  predicate QuarterTurn(o: Orientation)
  {
    var f, t := Axes(o), Axes(TurnLeft(o));
    t.z == f.z &&
    (if IsUp(o) then t.x == TurnCcw(f.x) && t.y == TurnCcw(f.y)
     else t.x == TurnCw(f.x) && t.y == TurnCw(f.y))
  }

  /** Geometrically, a left turn rotates both horizontal axes a quarter turn
      counter-clockwise about the frame's own z axis: seen from above, that is
      counter-clockwise for U frames and clockwise for D frames. */
  lemma TurnLeftRotates(o: Orientation)
    ensures Axes(TurnLeft(o)).z == Axes(o).z
    ensures IsUp(o) ==> Axes(TurnLeft(o)).x == TurnCcw(Axes(o).x)
    ensures IsUp(o) ==> Axes(TurnLeft(o)).y == TurnCcw(Axes(o).y)
    ensures !IsUp(o) ==> Axes(TurnLeft(o)).x == TurnCw(Axes(o).x)
    ensures !IsUp(o) ==> Axes(TurnLeft(o)).y == TurnCw(Axes(o).y)
  {
    match o
    case UNE => assert QuarterTurn(UNE);
    case UNW => assert QuarterTurn(UNW);
    case USW => assert QuarterTurn(USW);
    case USE => assert QuarterTurn(USE);
    case DNE => assert QuarterTurn(DNE);
    case DNW => assert QuarterTurn(DNW);
    case DSW => assert QuarterTurn(DSW);
    case DSE => assert QuarterTurn(DSE);
  }

  /** A flip swaps the horizontal axes and reverses z, so the frame stays
      right-handed. */
  predicate SwapsAndReverses(o: Orientation)
  {
    var f := Axes(o);
    Axes(FlipZ(o)) == Frame(f.y, f.x, Neg(f.z))
  }

  lemma FlipZSwapsAxes(o: Orientation)
    ensures SwapsAndReverses(o)
  {
    match o
    case UNE => assert SwapsAndReverses(UNE);
    case UNW => assert SwapsAndReverses(UNW);
    case USW => assert SwapsAndReverses(USW);
    case USE => assert SwapsAndReverses(USE);
    case DNE => assert SwapsAndReverses(DNE);
    case DNW => assert SwapsAndReverses(DNW);
    case DSW => assert SwapsAndReverses(DSW);
    case DSE => assert SwapsAndReverses(DSE);
  }

  /** The point at local coordinates (x, y, z) of a frame placed at `center`. */
  function Place(f: Frame, x: int, y: int, z: int, center: Vec): Vec
  {
    Vec(f.x.x * x + f.y.x * y + f.z.x * z + center.x,
        f.x.y * x + f.y.y * y + f.z.y * z + center.y,
        f.x.z * x + f.y.z * y + f.z.z * z + center.z)
  }

  /** `fill_sector`'s points: `ox*x + oy*y + oz*z + center` for non-negative
      x, y, z in `0..p2(i)` with `x + y + z < p2(i)`. */
  function SectorPoints(i: nat, center: Vec, o: Orientation): set<Vec>
  {
    var n := Pow2(i);
    set x, y, z | 0 <= x <= n && 0 <= y <= n && 0 <= z <= n && x + y + z < n :: Place(Axes(o), x, y, z, center)
  }

  /** The local coordinates of a point are its projections on the axes, which
      are unit vectors at right angles; so placing and projecting are inverse. */
  lemma ProjectPlace(o: Orientation, x: int, y: int, z: int, center: Vec)
    ensures var d := Sub(Place(Axes(o), x, y, z, center), center);
      Dot(d, Axes(o).x) == x && Dot(d, Axes(o).y) == y && Dot(d, Axes(o).z) == z
  {
  }

  lemma PlaceProject(o: Orientation, p: Vec, center: Vec)
    ensures var d := Sub(p, center); var f := Axes(o);
      Place(f, Dot(d, f.x), Dot(d, f.y), Dot(d, f.z), center) == p
  {
  }

  /** `fill_sector` covers exactly the points whose local coordinates are all
      non-negative and sum to less than `p2(i)`. */
  lemma SectorPointsSpec(i: nat, center: Vec, o: Orientation, p: Vec)
    ensures var d := Sub(p, center); var f := Axes(o);
      p in SectorPoints(i, center, o) <==>
        Dot(d, f.x) >= 0 && Dot(d, f.y) >= 0 && Dot(d, f.z) >= 0 &&
        Dot(d, f.x) + Dot(d, f.y) + Dot(d, f.z) < Pow2(i)
  {
    var d := Sub(p, center);
    var f := Axes(o);
    if p in SectorPoints(i, center, o) {
      var x, y, z :| 0 <= x <= Pow2(i) && 0 <= y <= Pow2(i) && 0 <= z <= Pow2(i) &&
                     x + y + z < Pow2(i) && p == Place(f, x, y, z, center);
      ProjectPlace(o, x, y, z, center);
    }
    PlaceProject(o, p, center);
  }

  /** `fill_sector` inserts with `octo_only` and without `strict`, so every
      sector point holds a fresh octahedron, even on tetrahedron sites. */
  function FillSector(g: Grid.Grid, i: nat, center: Vec, o: Orientation): (r: Grid.Grid)
    ensures r.Keys == g.Keys + SectorPoints(i, center, o)
    ensures forall p :: p in r ==>
      r[p] == if p in SectorPoints(i, center, o) then Grid.Octo(OctoCell.Fresh) else g[p]
  {
    Grid.Merge(g, map p | p in SectorPoints(i, center, o) :: Grid.Octo(OctoCell.Fresh))
  }

  /** One `fill_sector` insertion: whatever the site, an octahedron results. */
  lemma SectorInsertIsOcto(g: Grid.Grid, p: Vec)
    ensures Grid.InsertCell(g, p, false, true, false) == g[p := Grid.Octo(OctoCell.Fresh)]
  {
  }
}
