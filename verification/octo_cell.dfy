/** The octahedron cell (`OctoCell.py`): its adjacency flags, how `trim` derives
    them from the occupied coordinates, and the belt structure of `render`. */
module OctoCell {
  import opened Wrappers
  import opened Vector
  import opened OctoUtil
  import Mesh

  datatype OctoFlags = OctoFlags(
    weldUp: bool, weldDown: bool, clipPointUp: bool,
    cropTop: bool, cropBottom: bool, cropEast: bool, cropWest: bool, cropNorth: bool, cropSouth: bool,
    trimNe: bool, trimNw: bool, trimSw: bool, trimSe: bool)

  const Fresh := OctoFlags(false, false, false, false, false, false, false, false, false,
                           false, false, false, false)

  /** Neighbour probed for a corner trim: two steps along the diagonal. */
  function CornerProbe(c: Vec, diagonal: Vec): Vec
  {
    Vec(c.x + 2 * diagonal.x, c.y + 2 * diagonal.y, c.z + 2 * diagonal.z)
  }

  /** The five positions above the cell whose occupancy decides welding and
      clipping of the upper apex: four diagonal-up neighbours and the cell above. */
  function AtticProbes(c: Vec): (r: seq<Vec>)
    ensures |r| == 5
  {
    [Vec(c.x + 2, c.y, c.z + 2), Vec(c.x, c.y + 2, c.z + 2),
     Vec(c.x - 2, c.y, c.z + 2), Vec(c.x, c.y - 2, c.z + 2),
     Vec(c.x, c.y, c.z + 4)]
  }

  /** The four diagonal-down neighbours that decide welding of the lower apex. */
  function BasementProbes(c: Vec): (r: seq<Vec>)
    ensures |r| == 4
  {
    [Vec(c.x + 2, c.y, c.z - 2), Vec(c.x, c.y + 2, c.z - 2),
     Vec(c.x - 2, c.y, c.z - 2), Vec(c.x, c.y - 2, c.z - 2)]
  }

  /** The probes are the source's offsets `center + (Z + X) * 2`, ...,
      `center + 2 * Z * 2` above and `center + (-Z + X) * 2`, ... below. */
  lemma ProbesAreSourceOffsets(c: Vec)
    ensures CornerProbe(c, NE) == Add(c, Scale(NE, 2)) && CornerProbe(c, SW) == Add(c, Scale(SW, 2))
    ensures CornerProbe(c, NW) == Add(c, Scale(NW, 2)) && CornerProbe(c, SE) == Add(c, Scale(SE, 2))
    ensures AtticProbes(c) == [Add(c, Scale(Add(Z, X), 2)), Add(c, Scale(Add(Z, Y), 2)),
                               Add(c, Scale(Sub(Z, X), 2)), Add(c, Scale(Sub(Z, Y), 2)),
                               Add(c, Scale(Scale(Z, 2), 2))]
    ensures BasementProbes(c) == [Add(c, Scale(Add(Neg(Z), X), 2)), Add(c, Scale(Add(Neg(Z), Y), 2)),
                                  Add(c, Scale(Sub(Neg(Z), X), 2)), Add(c, Scale(Sub(Neg(Z), Y), 2))]
  {
  }

  /** Python's `all(p in occ for p in ps)`. */
  function AllIn(ps: seq<Vec>, occ: set<Vec>): bool
  {
    |ps| == 0 || (ps[0] in occ && AllIn(ps[1..], occ))
  }

  /** Python's `any(p in occ for p in ps)`. */
  function AnyIn(ps: seq<Vec>, occ: set<Vec>): bool
  {
    |ps| > 0 && (ps[0] in occ || AnyIn(ps[1..], occ))
  }

  lemma {:induction false} AllInMeans(ps: seq<Vec>, occ: set<Vec>)
    ensures AllIn(ps, occ) <==> forall k :: 0 <= k < |ps| ==> ps[k] in occ
  {
    if |ps| > 0 {
      AllInMeans(ps[1..], occ);
      assert forall k :: 1 <= k < |ps| ==> ps[k] == ps[1..][k - 1];
    }
  }

  lemma {:induction false} AnyInMeans(ps: seq<Vec>, occ: set<Vec>)
    ensures AnyIn(ps, occ) <==> exists k :: 0 <= k < |ps| && ps[k] in occ
  {
    if |ps| > 0 {
      AnyInMeans(ps[1..], occ);
      assert forall k :: 1 <= k < |ps| ==> ps[k] == ps[1..][k - 1];
      if ps[0] in occ {
        assert exists k :: 0 <= k < |ps| && ps[k] in occ;
      }
    }
  }

  /** `OctoCell.trim`: every adjacency flag is a membership test on the occupied
      coordinates; the crop flags are left as they were. */
  function Trim(f: OctoFlags, c: Vec, occ: set<Vec>): (r: OctoFlags)
    ensures r.trimNe <==> CornerProbe(c, NE) in occ
    ensures r.trimNw <==> CornerProbe(c, NW) in occ
    ensures r.trimSw <==> CornerProbe(c, SW) in occ
    ensures r.trimSe <==> CornerProbe(c, SE) in occ
    ensures r.weldUp <==> forall k :: 0 <= k < 5 ==> AtticProbes(c)[k] in occ
    ensures r.clipPointUp <==> forall k :: 0 <= k < 5 ==> AtticProbes(c)[k] !in occ
    ensures r.weldDown <==> forall k :: 0 <= k < 4 ==> BasementProbes(c)[k] in occ
    ensures r.(weldUp := f.weldUp, weldDown := f.weldDown, clipPointUp := f.clipPointUp,
               trimNe := f.trimNe, trimNw := f.trimNw, trimSw := f.trimSw, trimSe := f.trimSe) == f
  {
    AllInMeans(AtticProbes(c), occ);
    AnyInMeans(AtticProbes(c), occ);
    AllInMeans(BasementProbes(c), occ);
    var attic := AtticProbes(c);
    f.(trimNe := CornerProbe(c, NE) in occ,
       trimNw := CornerProbe(c, NW) in occ,
       trimSw := CornerProbe(c, SW) in occ,
       trimSe := CornerProbe(c, SE) in occ,
       clipPointUp := !AnyIn(attic, occ),
       weldUp := AllIn(attic, occ),
       weldDown := AllIn(BasementProbes(c), occ))
  }

  /** A welded apex is never clipped, and a clipped apex is never welded. */
  lemma WeldExcludesClip(f: OctoFlags, c: Vec, occ: set<Vec>)
    ensures !(Trim(f, c, occ).weldUp && Trim(f, c, occ).clipPointUp)
  {
    assert AtticProbes(c)[0] in AtticProbes(c);
  }

  /** Trimming forgets the previous adjacency flags: re-trimming against the
      same occupancy changes nothing. */
  lemma TrimIdempotent(f: OctoFlags, c: Vec, occ: set<Vec>)
    ensures Trim(Trim(f, c, occ), c, occ) == Trim(f, c, occ)
  {
  }

  function Translate(occ: set<Vec>, t: Vec): set<Vec>
  {
    set p | p in occ :: Add(p, t)
  }

  /** The flags depend only on the relative positions of the neighbours:
      shifting the cell and the whole occupancy together changes nothing. */
  lemma TrimTranslationInvariant(f: OctoFlags, c: Vec, occ: set<Vec>, t: Vec)
    ensures Trim(f, Add(c, t), Translate(occ, t)) == Trim(f, c, occ)
  {
    TranslateMember(occ, t);
    ProbesShift(c, t);
  }

  /** Translation is injective, so a shifted point is in the shifted set exactly
      when the point is in the set. */
  lemma TranslateMember(occ: set<Vec>, t: Vec)
    ensures forall p :: p in occ <==> Add(p, t) in Translate(occ, t)
  {
    forall p ensures p in occ <==> Add(p, t) in Translate(occ, t) {
      if Add(p, t) in Translate(occ, t) {
        var q :| q in occ && Add(q, t) == Add(p, t);
        assert q == p;
      }
    }
  }

  /** Every probe of a shifted cell is the shifted probe. */
  lemma ProbesShift(c: Vec, t: Vec)
    ensures forall k :: 0 <= k < 5 ==> AtticProbes(Add(c, t))[k] == Add(AtticProbes(c)[k], t)
    ensures forall k :: 0 <= k < 4 ==> BasementProbes(Add(c, t))[k] == Add(BasementProbes(c)[k], t)
    ensures CornerProbe(Add(c, t), NE) == Add(CornerProbe(c, NE), t)
    ensures CornerProbe(Add(c, t), NW) == Add(CornerProbe(c, NW), t)
    ensures CornerProbe(Add(c, t), SW) == Add(CornerProbe(c, SW), t)
    ensures CornerProbe(Add(c, t), SE) == Add(CornerProbe(c, SE), t)
  {
  }

  /** Welds are two-sided: when a cell welds upwards, the cell directly above it
      (its fifth attic probe) finds all of its basement probes occupied, namely
      the lower cell's four diagonal attic probes, and welds downwards. */
  lemma WeldSymmetry(f: OctoFlags, g: OctoFlags, c: Vec, occ: set<Vec>)
    requires Trim(f, c, occ).weldUp
    ensures Vec(c.x, c.y, c.z + 4) in occ
    ensures Trim(g, Vec(c.x, c.y, c.z + 4), occ).weldDown
  {
    var above := Vec(c.x, c.y, c.z + 4);
    assert AtticProbes(c)[4] == above;
    var a := AtticProbes(c);
    var b := BasementProbes(above);
    assert b[0] == a[0] && b[1] == a[1] && b[2] == a[2] && b[3] == a[3];
  }

  // The belt structure of `OctoCell.render`. Coordinates are floating point in
  // the source; here a vertex records which belt and corner it comes from and
  // which integer-free edits `render` applied to it.

  /** The horizontal rings of points that make up a rendered octahedron, top to
      bottom, plus the flange ring used under a cropped bottom. */
  datatype BeltKind =
    | TopBelt(clipped: bool)
    | TopWeldUpper | TopWeldLower
    | EquatorUpper | Equator | EquatorLower
    | DownWeldUpper | DownWeldLower
    | BottomBelt
    | LowerFlange

  /** Corner `corner` (0..3 for E, N, W, S) of a belt of kind `kind`; `bevels`
      are the diagonal trims that moved it, and `flat` records that its
      horizontal coordinates were collapsed onto the cell's vertical axis. */
  datatype Vertex = Vertex(kind: BeltKind, corner: nat, bevels: set<Diag>, flat: bool)

  /** The result of a successful render: the belt stack of the cell body and
      the belt stack of the optional flange mesh (empty when there is none). */
  datatype Rendered = Rendered(body: seq<seq<Vertex>>, flange: seq<seq<Vertex>>)

  /** With `crop_top` set the upper belt list is never assigned, and building
      the belt array fails. */
  datatype RenderError = UpperBeltsUnbound

  /** The first of the two consecutive equator corners a diagonal trim moves. */
  function FirstCorner(d: Diag): nat
  {
    match d
    case DNe => 0
    case DNw => 1
    case DSw => 2
    case DSe => 3
  }

  /** Each trim pulls its two corners back along the diagonal that lies between
      them: the diagonal is the sum of the two corners' cardinal directions. */
  lemma BevelDirectionBetweenCorners(d: Diag)
    ensures FirstCorner(d) < 4
    ensures DiagVec(d) == Add(Cardinal[FirstCorner(d)], Cardinal[(FirstCorner(d) + 1) % 4])
  {
    var k, n := FirstCorner(d), (FirstCorner(d) + 1) % 4;
    assert d == DNe ==> k == 0 && n == 1;
    assert d == DNw ==> k == 1 && n == 2;
    assert d == DSw ==> k == 2 && n == 3;
    assert d == DSe ==> k == 3 && n == 0;
  }

  /** The trim flag for diagonal `d`. */
  function TrimFlag(f: OctoFlags, d: Diag): bool
  {
    match d
    case DNe => f.trimNe
    case DNw => f.trimNw
    case DSw => f.trimSw
    case DSe => f.trimSe
  }

  /** The crop flag that collapses corner `corner`: east, north, west, south. */
  function CropFlag(f: OctoFlags, corner: nat): bool
  {
    if corner == 0 then f.cropEast
    else if corner == 1 then f.cropNorth
    else if corner == 2 then f.cropWest
    else if corner == 3 then f.cropSouth
    else false
  }

  /** The trims that move equator corner `corner`. */
  function EquatorBevels(f: OctoFlags, corner: nat): (r: set<Diag>)
    ensures forall d :: d in r <==>
      TrimFlag(f, d) && (corner == FirstCorner(d) || corner == (FirstCorner(d) + 1) % 4)
  {
    (if f.trimNe && (corner == 0 || corner == 1) then {DNe} else {}) +
    (if f.trimNw && (corner == 1 || corner == 2) then {DNw} else {}) +
    (if f.trimSw && (corner == 2 || corner == 3) then {DSw} else {}) +
    (if f.trimSe && (corner == 3 || corner == 0) then {DSe} else {})
  }

  /** A belt of four untouched corners. */
  function PlainBelt(kind: BeltKind): seq<Vertex>
  {
    seq(4, i requires 0 <= i < 4 => Vertex(kind, i, {}, false))
  }

  /** The equator after the diagonal trims, before any crop collapse. */
  function EquatorBelt(f: OctoFlags): seq<Vertex>
  {
    seq(4, i requires 0 <= i < 4 => Vertex(Equator, i, EquatorBevels(f, i), false))
  }

  /** The lower flange ring: of the trims only the south-west one moves it. */
  function LowerFlangeBelt(f: OctoFlags): seq<Vertex>
  {
    seq(4, i requires 0 <= i < 4 =>
      Vertex(LowerFlange, i, if f.trimSw && (i == 2 || i == 3) then {DSw} else {}, false))
  }

  function BuildBelt(f: OctoFlags, kind: BeltKind): seq<Vertex>
  {
    if kind == Equator then EquatorBelt(f) else PlainBelt(kind)
  }

  /** The crop pass over one belt of the copied array. */
  function Collapse(f: OctoFlags, belt: seq<Vertex>): seq<Vertex>
  {
    seq(|belt|, i requires 0 <= i < |belt| => belt[i].(flat := belt[i].flat || CropFlag(f, i)))
  }

  /** Which belts `render` stacks, top to bottom: the upper belts (two weld belts
      or one top belt, then the upper equator unless sharp), the equator, and,
      unless the bottom is cropped, the lower belts (lower equator unless sharp,
      the two down-weld belts when welded, and the bottom belt). */
  function BodyKinds(f: OctoFlags, sharp: bool): seq<BeltKind>
  {
    var upper := (if f.weldUp then [TopWeldUpper, TopWeldLower] else [TopBelt(f.clipPointUp)]) +
                 (if sharp then [] else [EquatorUpper]);
    var lower := if f.cropBottom then []
                 else (if sharp then [] else [EquatorLower]) +
                      (if f.weldDown then [DownWeldUpper, DownWeldLower] else []) +
                      [BottomBelt];
    upper + [Equator] + lower
  }

  /** Position of a belt kind from the top of the cell down. */
  function Level(k: BeltKind): nat
  {
    match k
    case TopBelt(_) => 0
    case TopWeldUpper => 0
    case TopWeldLower => 1
    case EquatorUpper => 2
    case Equator => 3
    case EquatorLower => 4
    case DownWeldUpper => 5
    case DownWeldLower => 6
    case BottomBelt => 7
    case LowerFlange => 8
  }

  /** When a belt kind appears in the body, stated independently of the list
      construction. */
  predicate Selected(f: OctoFlags, sharp: bool, k: BeltKind)
  {
    match k
    case TopBelt(clipped) => !f.weldUp && clipped == f.clipPointUp
    case TopWeldUpper => f.weldUp
    case TopWeldLower => f.weldUp
    case EquatorUpper => !sharp
    case Equator => true
    case EquatorLower => !sharp && !f.cropBottom
    case DownWeldUpper => f.weldDown && !f.cropBottom
    case DownWeldLower => f.weldDown && !f.cropBottom
    case BottomBelt => !f.cropBottom
    case LowerFlange => false
  }

  /** The body belts run strictly downwards, and a kind appears exactly when
      `Selected` says so; together these fix the list. The stack has between
      two and eight belts. */
  lemma BodyKindsSpec(f: OctoFlags, sharp: bool)
    ensures forall i, j :: 0 <= i < j < |BodyKinds(f, sharp)| ==>
      Level(BodyKinds(f, sharp)[i]) < Level(BodyKinds(f, sharp)[j])
    ensures forall k :: k in BodyKinds(f, sharp) <==> Selected(f, sharp, k)
    ensures 2 <= |BodyKinds(f, sharp)| <= 8
  {
    BodyKindsOrdered(f, sharp);
    BodyKindsSelected(f, sharp);
  }

  lemma BodyKindsOrdered(f: OctoFlags, sharp: bool)
    ensures forall i, j :: 0 <= i < j < |BodyKinds(f, sharp)| ==>
      Level(BodyKinds(f, sharp)[i]) < Level(BodyKinds(f, sharp)[j])
  {
  }

  lemma BodyKindsSelected(f: OctoFlags, sharp: bool)
    ensures forall k :: k in BodyKinds(f, sharp) <==> Selected(f, sharp, k)
  {
  }

  /** `OctoCell.render`, as belt structure: fails when `crop_top` is set;
      otherwise every body belt has four corners in E, N, W, S order, a corner
      is flat exactly when its crop flag is set, only the equator carries the
      diagonal bevels, and a flange stack (lower flange ring over the bevelled
      but uncollapsed equator) is added exactly when the bottom is cropped and
      the flange height is positive. */
  function Render(f: OctoFlags, sharp: bool, hasFlange: bool): (r: Result<Rendered, RenderError>)
    ensures r.Err? <==> f.cropTop
    ensures r.Ok? ==>
      |r.value.body| == |BodyKinds(f, sharp)| &&
      forall j :: 0 <= j < |r.value.body| ==>
        |r.value.body[j]| == 4 &&
        forall i :: 0 <= i < 4 ==>
          r.value.body[j][i].kind == BodyKinds(f, sharp)[j] &&
          r.value.body[j][i].corner == i &&
          (r.value.body[j][i].flat <==> CropFlag(f, i)) &&
          r.value.body[j][i].bevels == (if BodyKinds(f, sharp)[j] == Equator then EquatorBevels(f, i) else {})
    ensures r.Ok? ==> (|r.value.flange| > 0 <==> f.cropBottom && hasFlange)
    ensures r.Ok? && |r.value.flange| > 0 ==>
      |r.value.flange| == 2 &&
      forall i :: 0 <= i < 4 ==>
        |r.value.flange[0]| == |r.value.flange[1]| == 4 &&
        r.value.flange[0][i].kind == LowerFlange &&
        r.value.flange[0][i].corner == i && !r.value.flange[0][i].flat &&
        r.value.flange[0][i].bevels == (if f.trimSw && (i == 2 || i == 3) then {DSw} else {}) &&
        r.value.flange[1][i] == Vertex(Equator, i, EquatorBevels(f, i), false)
  {
    if f.cropTop then Err(UpperBeltsUnbound)
    else
      var kinds := BodyKinds(f, sharp);
      var body := seq(|kinds|, j requires 0 <= j < |kinds| => Collapse(f, BuildBelt(f, kinds[j])));
      Ok(Rendered(body, if f.cropBottom && hasFlange then [LowerFlangeBelt(f), EquatorBelt(f)] else []))
  }

  /** The faces the cell contributes: the body mesh, then the flange mesh. */
  function Faces(r: Rendered): seq<seq<Vertex>>
    requires Mesh.Rectangular(r.body)
    requires |r.flange| > 0 ==> Mesh.Rectangular(r.flange)
  {
    Mesh.Polygons(r.body) + (if |r.flange| > 0 then Mesh.Polygons(r.flange) else [])
  }

  /** A rendered cell has two caps and four quads per adjacent pair of body
      belts, plus six faces for the flange. */
  lemma RenderFaceCount(f: OctoFlags, sharp: bool, hasFlange: bool)
    requires !f.cropTop
    ensures Mesh.Rectangular(Render(f, sharp, hasFlange).value.body)
    ensures var r := Render(f, sharp, hasFlange).value;
      (|r.flange| > 0 ==> Mesh.Rectangular(r.flange)) &&
      |Faces(r)| == 2 + 4 * (|BodyKinds(f, sharp)| - 1) + (if f.cropBottom && hasFlange then 6 else 0)
  {
    var r := Render(f, sharp, hasFlange).value;
    BodyKindsSpec(f, sharp);
    Mesh.PolygonsCount(r.body);
    if |r.flange| > 0 {
      Mesh.PolygonsCount(r.flange);
    }
  }
}
