/** The sparse lattice grid (`OctoGrid`): a map from coordinate to cell, with
    insertion onto the octahedron and tetrahedron sublattices, fill, crop,
    merge, trimming, reflection and the four-way symmetry. */
module Grid {
  import opened Wrappers
  import opened Vector
  import opened OctoUtil
  import OctoCell
  import TetraCell

  /** A grid cell. `Base` is the abstract `GridCell`, whose `trim` and `render`
      only raise; the grid's own insertion never creates one. */
  datatype Cell = Octo(octo: OctoCell.OctoFlags) | Tetra(tetra: TetraCell.TetraFlags) | Base

  type Grid = map<Vec, Cell>

  datatype GridError = NotImplemented | MissingKey(key: Vec)

  function Abs(a: int): nat
  {
    if a < 0 then -a else a
  }

  /** Octahedra sit at z = 0 (mod 4) with (x, y) = (2, 0) or (0, 2) (mod 4), and
      at z = 2 (mod 4) with (x, y) = (0, 0) or (2, 2) (mod 4). */
  predicate IsOctoSite(p: Vec)
  {
    (p.z % 4 == 0 && ((p.x % 4 == 2 && p.y % 4 == 0) || (p.x % 4 == 0 && p.y % 4 == 2))) ||
    (p.z % 4 == 2 && ((p.x % 4 == 0 && p.y % 4 == 0) || (p.x % 4 == 2 && p.y % 4 == 2)))
  }

  /** Tetrahedra sit where all three coordinates are odd. */
  predicate IsTetraSite(p: Vec)
  {
    p.z % 2 == 1 && Abs(p.x) % 2 == 1 && Abs(p.y) % 2 == 1
  }

  /** No coordinate is on both sublattices: octahedra have even z. */
  lemma SitesDisjoint(p: Vec)
    ensures !(IsOctoSite(p) && IsTetraSite(p))
  {
  }

  lemma Mod4Parts(a: int)
    ensures a == 4 * (a / 4) + a % 4 && 0 <= a % 4 < 4
    ensures a % 2 == (a % 4) % 2
  {
    var q, r := a / 4, a % 4;
    if r < 2 {
      DivMod2(a, 2 * q, r);
      DivMod2(r, 0, r);
    } else {
      DivMod2(a, 2 * q + 1, r - 2);
      DivMod2(r, 1, r - 2);
    }
  }

  lemma Mod4Add(a: int, b: int)
    ensures (a + b) % 4 == (a % 4 + b % 4) % 4
  {
    var qa, qb, s := a / 4, b / 4, a % 4 + b % 4;
    if s < 4 {
      DivMod4(a + b, qa + qb, s);
      DivMod4(s, 0, s);
    } else {
      DivMod4(a + b, qa + qb + 1, s - 4);
      DivMod4(s, 1, s - 4);
    }
  }

  lemma AbsParity(a: int)
    ensures Abs(a) % 2 == a % 2
  {
    if a < 0 {
      var q, r := (-a) / 2, (-a) % 2;
      DivMod2(a, -q - r, r);
    }
  }

  /** Every octahedron site has even coordinates and coordinate sum 2 (mod 4). */
  lemma OctoSiteParity(p: Vec)
    requires IsOctoSite(p)
    ensures p.x % 2 == 0 && p.y % 2 == 0 && p.z % 2 == 0
    ensures (p.x + p.y + p.z) % 4 == 2
  {
    OctoSiteIff(p);
  }

  lemma Mod2Add(a: int, b: int)
    ensures (a + b) % 2 == (a % 2 + b % 2) % 2
  {
    var qa, qb, s := a / 2, b / 2, a % 2 + b % 2;
    if s < 2 {
      DivMod2(a + b, qa + qb, s);
      DivMod2(s, 0, s);
    } else {
      DivMod2(a + b, qa + qb + 1, s - 2);
      DivMod2(s, 1, s - 2);
    }
  }

  /** Octahedron sites are exactly the all-even coordinates whose sum is 2 (mod 4). */
  lemma OctoSiteIff(p: Vec)
    ensures IsOctoSite(p) <==>
      p.x % 2 == 0 && p.y % 2 == 0 && p.z % 2 == 0 && (p.x + p.y + p.z) % 4 == 2
  {
    Mod4Parts(p.x);
    Mod4Parts(p.y);
    Mod4Parts(p.z);
    Mod4Add(p.x, p.y);
    Mod4Add(p.x + p.y, p.z);
  }

  /** A step by odd offsets from a point with odd coordinates lands on an
      octahedron site when it moves the coordinate sum to 2 (mod 4). */
  lemma OddStepToOctoSite(c: Vec, dx: int, dy: int, dz: int)
    requires c.x % 2 == 1 && c.y % 2 == 1 && c.z % 2 == 1
    requires dx % 2 == 1 && dy % 2 == 1 && dz % 2 == 1
    requires ((c.x + c.y + c.z) % 4 + dx + dy + dz) % 4 == 2
    ensures IsOctoSite(Vec(c.x + dx, c.y + dy, c.z + dz))
  {
    var p := Vec(c.x + dx, c.y + dy, c.z + dz);
    OctoSiteIff(p);
    Mod2Add(c.x, dx);
    Mod2Add(c.y, dy);
    Mod2Add(c.z, dz);
    var t := c.x + c.y + c.z;
    Mod4Add(t, dx + dy + dz);
    Mod4Add(t % 4, dx + dy + dz);
    Mod4Parts(t);
  }

  /** The probes of a tetrahedron's trims always land on octahedron sites:
      a tetrahedron is trimmed by the octahedra around it. */
  lemma TetraProbesOnOctoSites(c: Vec, d: Diag)
    requires IsTetraSite(c)
    ensures IsOctoSite(TetraCell.Probes(c, d).0) && IsOctoSite(TetraCell.Probes(c, d).1)
  {
    AbsParity(c.x);
    AbsParity(c.y);
    var t := c.x + c.y + c.z;
    Mod2Add(c.x, c.y);
    Mod2Add(c.x + c.y, c.z);
    TetraCell.OddModFour(t);
    var s := TetraCell.ProbeSign(c);
    assert s == 1 <==> t % 4 == 3;
    match d
    case DSw =>
      OddStepToOctoSite(c, -3, -1, -s);
      OddStepToOctoSite(c, -1, -3, -s);
    case DSe =>
      OddStepToOctoSite(c, 3, -1, s);
      OddStepToOctoSite(c, 1, -3, s);
    case DNw =>
      OddStepToOctoSite(c, -3, 1, s);
      OddStepToOctoSite(c, -1, 3, s);
    case DNe =>
      OddStepToOctoSite(c, 3, 1, -s);
      OddStepToOctoSite(c, 1, 3, -s);
  }

  /** The neighbours an octahedron probes in its trim are octahedron sites
      too: trims look only at other octahedra. */
  lemma OctoProbesOnOctoSites(c: Vec)
    requires IsOctoSite(c)
    ensures forall k :: 0 <= k < 5 ==> IsOctoSite(OctoCell.AtticProbes(c)[k])
    ensures forall k :: 0 <= k < 4 ==> IsOctoSite(OctoCell.BasementProbes(c)[k])
    ensures IsOctoSite(OctoCell.CornerProbe(c, NE)) && IsOctoSite(OctoCell.CornerProbe(c, NW))
    ensures IsOctoSite(OctoCell.CornerProbe(c, SW)) && IsOctoSite(OctoCell.CornerProbe(c, SE))
  {
    Mod4Add(c.x, 2);
    Mod4Add(c.x, -2);
    Mod4Add(c.y, 2);
    Mod4Add(c.y, -2);
    Mod4Add(c.z, 2);
    Mod4Add(c.z, -2);
    Mod4Add(c.z, 4);
    Mod4Parts(c.x);
    Mod4Parts(c.y);
    Mod4Parts(c.z);
  }

  /** `insert_cell`. A non-strict insertion first puts a fresh octahedron at
      the coordinate; then a fresh octahedron goes on an octahedron site unless
      `tetraOnly`, and a fresh tetrahedron on a tetrahedron site unless
      `octoOnly`. A strict insertion validates the coordinate, which integer
      coordinates always pass, and inserts nothing off the sublattices. */
  function InsertCell(g: Grid, p: Vec, strict: bool, octoOnly: bool, tetraOnly: bool): (r: Grid)
    ensures forall q :: q != p ==> (q in r <==> q in g) && (q in g ==> r[q] == g[q])
    ensures p in r <==> p in g || !strict || (IsOctoSite(p) && !tetraOnly) || (IsTetraSite(p) && !octoOnly)
    ensures IsOctoSite(p) && !tetraOnly ==> r[p] == Octo(OctoCell.Fresh)
    ensures IsTetraSite(p) && !octoOnly ==> r[p] == Tetra(TetraCell.Fresh)
    ensures !strict ==> r[p] == Octo(OctoCell.Fresh) || r[p] == Tetra(TetraCell.Fresh)
    ensures strict && !(IsOctoSite(p) && !tetraOnly) && !(IsTetraSite(p) && !octoOnly) ==> r == g
  {
    var g1 := if strict then g else g[p := Octo(OctoCell.Fresh)];
    if IsOctoSite(p) then
      if !tetraOnly then g1[p := Octo(OctoCell.Fresh)] else g1
    else if IsTetraSite(p) then
      if !octoOnly then g1[p := Tetra(TetraCell.Fresh)] else g1
    else g1
  }

  /** The cell a default (non-strict, unrestricted) insertion leaves at `p`. */
  function FreshCell(p: Vec): Cell
  {
    if IsTetraSite(p) then Tetra(TetraCell.Fresh) else Octo(OctoCell.Fresh)
  }

  /** A default insertion places `FreshCell(p)`, whatever was there before. */
  lemma DefaultInsertIsFresh(g: Grid, p: Vec)
    ensures InsertCell(g, p, false, false, false) == g[p := FreshCell(p)]
  {
    SitesDisjoint(p);
  }

  /** The grid a sequence of default insertions builds from nothing. */
  function FreshGrid(pts: set<Vec>): (r: Grid)
    ensures r.Keys == pts
  {
    map p | p in pts :: FreshCell(p)
  }

  /** `merge`: a right-biased union of the two grids, where the second grid's
      cell wins at a shared coordinate. */
  function Merge(a: Grid, b: Grid): (r: Grid)
    ensures r.Keys == a.Keys + b.Keys
    ensures forall p :: p in r ==> r[p] == if p in b then b[p] else a[p]
  {
    a + b
  }

  lemma MergeAssociative(a: Grid, b: Grid, c: Grid)
    ensures Merge(Merge(a, b), c) == Merge(a, Merge(b, c))
  {
  }

  /** Merging grids of default insertions is the grid of the union, so the
      builders' output is determined by the set of inserted coordinates. */
  lemma MergeFreshGrids(a: set<Vec>, b: set<Vec>)
    ensures Merge(FreshGrid(a), FreshGrid(b)) == FreshGrid(a + b)
  {
  }

  /** The coordinates `fill` touches: offsets with |x| + |y| + |z| < radius
      inside the box of half-width `radius`. */
  function FillPoints(radius: int, center: Vec): set<Vec>
  {
    set x, y, z | -radius <= x <= radius && -radius <= y <= radius && -radius <= z <= radius &&
                  Taxicab(x, y, z) < radius :: Vec(center.x + x, center.y + y, center.z + z)
  }

  /** The taxicab length of the offset (x, y, z). */
  function Taxicab(x: int, y: int, z: int): nat
  {
    Abs(x) + Abs(y) + Abs(z)
  }

  /** `fill` touches exactly the points at taxicab distance below `radius`. */
  lemma FillPointsSpec(radius: int, center: Vec, p: Vec)
    ensures p in FillPoints(radius, center) <==>
      Abs(p.x - center.x) + Abs(p.y - center.y) + Abs(p.z - center.z) < radius
  {
    var x, y, z := p.x - center.x, p.y - center.y, p.z - center.z;
    assert p == Vec(center.x + x, center.y + y, center.z + z);
    assert Taxicab(x, y, z) == Abs(p.x - center.x) + Abs(p.y - center.y) + Abs(p.z - center.z);
  }

  /** `fill`. Without `clear`, a default insertion at every point of the ball;
      with `clear`, every point is removed, and a point that is not in the grid
      is an error. */
  method Fill(g: Grid, radius: int, center: Vec, clear: bool) returns (r: Result<Grid, GridError>)
    ensures !clear ==> r == Ok(Merge(g, FreshGrid(FillPoints(radius, center))))
    ensures clear ==> (r.Err? <==> !(FillPoints(radius, center) <= g.Keys))
    ensures clear && r.Ok? ==> r.value == g - FillPoints(radius, center)
  {
    var pts := FillPoints(radius, center);
    if clear {
      r := PopAll(g, pts);
    } else {
      var filled := InsertAll(g, pts);
      r := Ok(filled);
    }
  }

  /** Default insertion of every point, in any order. */
  method InsertAll(g: Grid, pts: set<Vec>) returns (r: Grid)
    ensures r == Merge(g, FreshGrid(pts))
  {
    var todo, done := pts, {};
    r := g;
    while todo != {}
      invariant done + todo == pts && done !! todo
      invariant r == Merge(g, FreshGrid(done))
      decreases |todo|
    {
      var p :| p in todo;
      DefaultInsertIsFresh(r, p);
      MergeFreshStep(g, done, p);
      r := InsertCell(r, p, false, false, false);
      MoveOne(done, todo, p);
      todo, done := todo - {p}, done + {p};
    }
  }

  /** `occ.pop` of every point, in any order; a missing key raises. */
  method PopAll(g: Grid, pts: set<Vec>) returns (r: Result<Grid, GridError>)
    ensures r.Err? <==> !(pts <= g.Keys)
    ensures r.Ok? ==> r.value == g - pts
  {
    var todo, done := pts, {};
    var acc := g;
    while todo != {}
      invariant done + todo == pts && done !! todo
      invariant done <= g.Keys && acc == g - done
      decreases |todo|
    {
      var p :| p in todo;
      if p !in acc {
        return Err(MissingKey(p));
      }
      RemoveStep(g, done, p);
      acc := acc - {p};
      MoveOne(done, todo, p);
      todo, done := todo - {p}, done + {p};
    }
    r := Ok(acc);
  }

  lemma MoveOne(done: set<Vec>, todo: set<Vec>, p: Vec)
    requires p in todo && done !! todo
    ensures (done + {p}) + (todo - {p}) == done + todo
    ensures (done + {p}) !! (todo - {p})
    ensures |todo - {p}| < |todo|
  {
  }

  lemma MergeFreshStep(g: Grid, done: set<Vec>, p: Vec)
    ensures Merge(g, FreshGrid(done))[p := FreshCell(p)] == Merge(g, FreshGrid(done + {p}))
  {
  }

  lemma RemoveStep(g: Grid, done: set<Vec>, p: Vec)
    ensures (g - done) - {p} == g - (done + {p})
  {
  }

  /** Optional crop bounds; `None` is an infinite bound. */
  datatype Bounds = Bounds(xMin: Option<int>, xMax: Option<int>, yMin: Option<int>,
                           yMax: Option<int>, zMin: Option<int>, zMax: Option<int>)

  predicate Below(v: int, b: Option<int>)
  {
    b.Some? && v < b.value
  }

  predicate Above(v: int, b: Option<int>)
  {
    b.Some? && v > b.value
  }

  predicate At(v: int, b: Option<int>)
  {
    b.Some? && v == b.value
  }

  /** A coordinate strictly outside one of the bounds. */
  predicate Outside(p: Vec, b: Bounds)
  {
    Below(p.x, b.xMin) || Above(p.x, b.xMax) || Below(p.y, b.yMin) ||
    Above(p.y, b.yMax) || Below(p.z, b.zMin) || Above(p.z, b.zMax)
  }

  /** The crop flags a kept octahedron gets: one per bound it lies on. The
      attributes set on other cells are never read by their `render`. */
  function CropCell(c: Cell, p: Vec, b: Bounds): Cell
  {
    match c
    case Octo(f) => Octo(f.(cropBottom := f.cropBottom || At(p.z, b.zMin),
                            cropTop := f.cropTop || At(p.z, b.zMax),
                            cropWest := f.cropWest || At(p.x, b.xMin),
                            cropEast := f.cropEast || At(p.x, b.xMax),
                            cropSouth := f.cropSouth || At(p.y, b.yMin),
                            cropNorth := f.cropNorth || At(p.y, b.yMax)))
    case _ => c
  }

  /** `crop`: removes every key strictly outside a bound, marks the kept
      octahedra lying on a bound, and leaves everything else alone. */
  function Crop(g: Grid, b: Bounds): (r: Grid)
    ensures forall p :: p in r <==> p in g && !Outside(p, b)
    ensures forall p :: p in r ==> (r[p].Octo? <==> g[p].Octo?) && (!g[p].Octo? ==> r[p] == g[p])
    ensures forall p :: p in r && g[p].Octo? ==>
      var f, f' := g[p].octo, r[p].octo;
      (f'.cropBottom <==> f.cropBottom || At(p.z, b.zMin)) &&
      (f'.cropTop <==> f.cropTop || At(p.z, b.zMax)) &&
      (f'.cropWest <==> f.cropWest || At(p.x, b.xMin)) &&
      (f'.cropEast <==> f.cropEast || At(p.x, b.xMax)) &&
      (f'.cropSouth <==> f.cropSouth || At(p.y, b.yMin)) &&
      (f'.cropNorth <==> f.cropNorth || At(p.y, b.yMax)) &&
      f'.(cropBottom := f.cropBottom, cropTop := f.cropTop, cropWest := f.cropWest,
          cropEast := f.cropEast, cropSouth := f.cropSouth, cropNorth := f.cropNorth) == f
  {
    map p | p in g && !Outside(p, b) :: CropCell(g[p], p, b)
  }

  /** Cropping again with the same bounds changes nothing further. */
  lemma CropIdempotent(g: Grid, b: Bounds)
    ensures Crop(Crop(g, b), b) == Crop(g, b)
  {
    var once := Crop(g, b);
    var twice := Crop(once, b);
    assert twice.Keys == once.Keys;
    forall p | p in once ensures twice[p] == once[p] {
    }
  }

  /** A cell's `trim` against the set of occupied coordinates: the base
      `GridCell` raises, the two solid cells keep their kind. */
  function TrimCell(c: Cell, p: Vec, occ: set<Vec>): (r: Result<Cell, GridError>)
    ensures r.Err? <==> c.Base?
    ensures r.Err? ==> r.error == NotImplemented
    ensures r.Ok? ==> r.value.Octo? == c.Octo? && r.value.Tetra? == c.Tetra?
    ensures r.Ok? && c.Tetra? ==> r.value.tetra.flip == ((p.x + p.y + p.z) % 4 == 1)
  {
    match c
    case Octo(f) => Ok(Octo(OctoCell.Trim(f, p, occ)))
    case Tetra(_) => Ok(Tetra(TetraCell.Trim(p, occ)))
    case Base => Err(NotImplemented)
  }

  /** The mesh of one cell, as belt structure. */
  datatype CellMesh = OctoMesh(octo: OctoCell.Rendered) | TetraMesh(belts: seq<seq<TetraCell.TVertex>>)

  datatype RenderFailure = Unimplemented | UpperBeltsUnbound

  /** A cell's `render`: the base `GridCell` raises, an octahedron fails
      exactly when its top is cropped, and a tetrahedron always renders. */
  function RenderCell(c: Cell, sharp: bool, hasFlange: bool): (r: Result<CellMesh, RenderFailure>)
    ensures c.Base? ==> r == Err(Unimplemented)
    ensures c.Octo? ==> (r.Err? <==> c.octo.cropTop)
    ensures c.Octo? && r.Err? ==> r.error == UpperBeltsUnbound
    ensures c.Octo? && r.Ok? ==> r.value.OctoMesh? && |r.value.octo.body| >= 2
    ensures c.Tetra? ==> r.Ok? && r.value.TetraMesh? && |r.value.belts| == 4
  {
    match c
    case Base => Err(Unimplemented)
    case Tetra(f) => Ok(TetraMesh(TetraCell.Render(f)))
    case Octo(f) =>
      if f.cropTop then Err(UpperBeltsUnbound)
      else
        OctoCell.BodyKindsSpec(f, sharp);
        Ok(OctoMesh(OctoCell.Render(f, sharp, hasFlange).value))
  }

  predicate NoBase(g: Grid)
  {
    forall p :: p in g ==> !g[p].Base?
  }

  /** `compute_trimming`: every cell is trimmed against the full key set, and
      the keys do not change; a base cell raises. */
  function ComputeTrimming(g: Grid): (r: Result<Grid, GridError>)
    ensures r.Err? <==> !NoBase(g)
    ensures r.Ok? ==> r.value.Keys == g.Keys
    ensures r.Ok? ==> forall p :: p in g ==> TrimCell(g[p], p, g.Keys) == Ok(r.value[p])
  {
    if NoBase(g) then Ok(map p | p in g :: TrimCell(g[p], p, g.Keys).value)
    else Err(NotImplemented)
  }

  /** Trimming is idempotent: the flags depend only on the keys, which
      trimming keeps. */
  lemma ComputeTrimmingIdempotent(g: Grid)
    requires NoBase(g)
    ensures ComputeTrimming(g).Ok?
    ensures NoBase(ComputeTrimming(g).value)
    ensures ComputeTrimming(ComputeTrimming(g).value) == ComputeTrimming(g)
  {
    var t := ComputeTrimming(g).value;
    forall p | p in t ensures !t[p].Base? && TrimCell(t[p], p, t.Keys) == Ok(t[p]) {
      TrimmedCellIsFixed(g[p], p, g.Keys);
    }
    TrimFixpoint(t);
  }

  /** A trimmed cell is unchanged by trimming it again against the same keys. */
  lemma TrimmedCellIsFixed(c: Cell, p: Vec, occ: set<Vec>)
    requires !c.Base?
    ensures TrimCell(c, p, occ).Ok? && !TrimCell(c, p, occ).value.Base?
    ensures TrimCell(TrimCell(c, p, occ).value, p, occ) == TrimCell(c, p, occ)
  {
    if c.Octo? {
      OctoCell.TrimIdempotent(c.octo, p, occ);
    }
  }

  lemma TrimFixpoint(g: Grid)
    requires forall p :: p in g ==> !g[p].Base? && TrimCell(g[p], p, g.Keys) == Ok(g[p])
    ensures ComputeTrimming(g) == Ok(g)
  {
    assert NoBase(g);
    var t := ComputeTrimming(g).value;
    assert t.Keys == g.Keys;
    forall p | p in g ensures t[p] == g[p] {
      assert TrimCell(g[p], p, g.Keys) == Ok(t[p]);
    }
    assert t == g;
  }

  /** Default insertions never create a base cell, so trimming a builder grid
      always succeeds. */
  lemma FreshGridTrims(pts: set<Vec>)
    ensures NoBase(FreshGrid(pts))
    ensures ComputeTrimming(FreshGrid(pts)).Ok?
  {
  }

  /** The image of `p` under the reflection `(p - o) * rv + o`. */
  function ReflectPoint(p: Vec, rv: Vec, o: Vec): Vec
  {
    Add(MulComp(Sub(p, o), rv), o)
  }

  function Image(keys: set<Vec>, rv: Vec, o: Vec): set<Vec>
  {
    set p | p in keys :: ReflectPoint(p, rv, o)
  }

  /** `reflect`: the images of all keys are inserted, as fresh cells, into a
      new grid that is merged over the original. */
  function Reflect(g: Grid, rv: Vec, o: Vec): (r: Grid)
    ensures r.Keys == g.Keys + Image(g.Keys, rv, o)
    ensures forall p :: p in r ==> r[p] == if p in Image(g.Keys, rv, o) then FreshCell(p) else g[p]
  {
    Merge(g, FreshGrid(Image(g.Keys, rv, o)))
  }

  predicate IsSignVec(rv: Vec)
  {
    (rv.x == 1 || rv.x == -1) && (rv.y == 1 || rv.y == -1) && (rv.z == 1 || rv.z == -1)
  }

  lemma ReflectPointInvolution(p: Vec, rv: Vec, o: Vec)
    requires IsSignVec(rv)
    ensures ReflectPoint(ReflectPoint(p, rv, o), rv, o) == p
  {
    MulCompSignInvolution(Sub(p, o), rv);
  }

  /** With a sign vector, the keys after `reflect` are closed under the
      reflection: every key's mirror image is also a key. */
  lemma ReflectClosed(g: Grid, rv: Vec, o: Vec)
    requires IsSignVec(rv)
    ensures forall p :: p in Reflect(g, rv, o) ==> ReflectPoint(p, rv, o) in Reflect(g, rv, o)
  {
    forall p | p in Reflect(g, rv, o) ensures ReflectPoint(p, rv, o) in Reflect(g, rv, o) {
      if p !in g {
        var q :| q in g && ReflectPoint(q, rv, o) == p;
        ReflectPointInvolution(q, rv, o);
      }
    }
  }

  /** The x/y swap of `four_way` about `o`: `(y, x, z)` of `p - o`, plus `o`. */
  function SwapPoint(p: Vec, o: Vec): Vec
  {
    Vec(p.y - o.y + o.x, p.x - o.x + o.y, p.z)
  }

  lemma SwapPointIsSourceExpression(p: Vec, o: Vec)
    ensures var d := Sub(p, o); SwapPoint(p, o) == Add(Vec(d.y, d.x, d.z), o)
  {
  }

  function SwapImage(keys: set<Vec>, o: Vec): set<Vec>
  {
    set p | p in keys :: SwapPoint(p, o)
  }

  const FlipX := Vec(-1, 1, 1)
  const FlipY := Vec(1, -1, 1)

  /** The swap step shared by both versions of `four_way`: the swapped images
      are inserted as fresh cells and merged over the grid. */
  function SwapStep(g: Grid, o: Vec): Grid
  {
    Merge(g, FreshGrid(SwapImage(g.Keys, o)))
  }

  /** `four_way` as written: the swap is about `o`, but `reflect_x` and
      `reflect_y` are called without a centre and so reflect about the origin. */
  function FourWayAsWritten(g: Grid, o: Vec): (r: Grid)
    ensures g.Keys <= r.Keys
  {
    Reflect(Reflect(SwapStep(g, o), FlipX, Origin), FlipY, Origin)
  }

  /** `four_way` with both reflections about the centre of rotation. */
  function FourWay(g: Grid, o: Vec): (r: Grid)
    ensures g.Keys <= r.Keys
  {
    Reflect(Reflect(SwapStep(g, o), FlipX, o), FlipY, o)
  }

  /** The keys after reflecting a grid with one or two keys. */
  lemma ReflectOneKey(g: Grid, rv: Vec, o: Vec, q: Vec)
    requires g.Keys == {q}
    ensures Reflect(g, rv, o).Keys == {q, ReflectPoint(q, rv, o)}
  {
    assert Image(g.Keys, rv, o) == {ReflectPoint(q, rv, o)};
  }

  lemma ReflectTwoKeys(g: Grid, rv: Vec, o: Vec, q: Vec, q': Vec)
    requires g.Keys == {q, q'}
    ensures Reflect(g, rv, o).Keys == {q, q', ReflectPoint(q, rv, o), ReflectPoint(q', rv, o)}
  {
    assert Image(g.Keys, rv, o) == {ReflectPoint(q, rv, o), ReflectPoint(q', rv, o)};
  }

  /** A cell at the centre of rotation is its own swap image. */
  lemma SwapStepOfCentre(o: Vec)
    ensures SwapStep(map[o := Octo(OctoCell.Fresh)], o).Keys == {o}
  {
    var g := map[o := Octo(OctoCell.Fresh)];
    assert g.Keys == {o};
    assert SwapPoint(o, o) == o;
    assert SwapImage(g.Keys, o) == {o};
  }

  /** A single octahedron at the centre of rotation (4, 0, 0) should be its own
      four-way image; as written, the result also holds (-4, 0, 0), whose mirror
      about the centre, (12, 0, 0), is missing. */
  lemma FourWayAsWrittenNotSymmetric()
    ensures FourWayAsWritten(map[Vec(4, 0, 0) := Octo(OctoCell.Fresh)], Vec(4, 0, 0)).Keys ==
      {Vec(4, 0, 0), Vec(-4, 0, 0)}
    ensures ReflectPoint(Vec(-4, 0, 0), FlipX, Vec(4, 0, 0)) == Vec(12, 0, 0)
  {
    var o, m := Vec(4, 0, 0), Vec(-4, 0, 0);
    var g := map[o := Octo(OctoCell.Fresh)];
    var sw := SwapStep(g, o);
    SwapStepOfCentre(o);
    assert ReflectPoint(o, FlipX, Origin) == m;
    ReflectOneKey(sw, FlipX, Origin, o);
    var x := Reflect(sw, FlipX, Origin);
    assert ReflectPoint(o, FlipY, Origin) == o;
    assert ReflectPoint(m, FlipY, Origin) == m;
    ReflectFixedKeys(x, FlipY, Origin, o, m);
  }

  /** Reflecting a two-key grid whose keys are both fixed by the reflection
      adds no key. */
  lemma ReflectFixedKeys(g: Grid, rv: Vec, o: Vec, q: Vec, q': Vec)
    requires g.Keys == {q, q'}
    requires ReflectPoint(q, rv, o) == q && ReflectPoint(q', rv, o) == q'
    ensures Reflect(g, rv, o).Keys == {q, q'}
  {
    ReflectTwoKeys(g, rv, o, q, q');
  }

  /** Reflecting about a point on the z axis is reflecting about the origin,
      for a reflection that keeps z. */
  lemma ReflectAboutAxisPoint(g: Grid, rv: Vec, o: Vec)
    requires rv.z == 1 && o.x == 0 && o.y == 0
    ensures Reflect(g, rv, o) == Reflect(g, rv, Origin)
  {
    forall p ensures ReflectPoint(p, rv, o) == ReflectPoint(p, rv, Origin) {
    }
    assert Image(g.Keys, rv, o) == Image(g.Keys, rv, Origin);
  }

  /** When the centre of rotation lies on the z axis, the as-written
      `four_way` is the intended one, for every grid. */
  lemma FourWayAsWrittenOnAxis(g: Grid, o: Vec)
    requires o.x == 0 && o.y == 0
    ensures FourWayAsWritten(g, o) == FourWay(g, o)
  {
    var sw := SwapStep(g, o);
    ReflectAboutAxisPoint(sw, FlipX, o);
    ReflectAboutAxisPoint(Reflect(sw, FlipX, o), FlipY, o);
  }

  /** A single octahedron at the centre of rotation is its own four-way image. */
  lemma FourWayOfCentre(o: Vec)
    ensures FourWay(map[o := Octo(OctoCell.Fresh)], o).Keys == {o}
  {
    var sw := SwapStep(map[o := Octo(OctoCell.Fresh)], o);
    SwapStepOfCentre(o);
    assert ReflectPoint(o, FlipX, o) == o;
    ReflectOneKey(sw, FlipX, o, o);
    assert ReflectPoint(o, FlipY, o) == o;
    ReflectOneKey(Reflect(sw, FlipX, o), FlipY, o, o);
  }

  /** As written, a mirror image of the centre about the origin's x or y axis
      ends up in the result, and it differs from the centre off the z axis. */
  lemma FourWayAsWrittenOfCentre(o: Vec)
    requires o.x != 0 || o.y != 0
    ensures FourWayAsWritten(map[o := Octo(OctoCell.Fresh)], o).Keys != {o}
  {
    var sw := SwapStep(map[o := Octo(OctoCell.Fresh)], o);
    SwapStepOfCentre(o);
    var m := ReflectPoint(o, FlipX, Origin);
    ReflectOneKey(sw, FlipX, Origin, o);
    var x := Reflect(sw, FlipX, Origin);
    assert m in x.Keys;
    var w := if o.x != 0 then m else ReflectPoint(m, FlipY, Origin);
    assert w in Image(x.Keys, FlipY, Origin) || w in x.Keys;
    assert w in Reflect(x, FlipY, Origin).Keys && w != o;
  }

  /** Off the z axis, the as-written `four_way` differs from the intended one:
      a single octahedron at the centre of rotation is its own four-way image,
      but the as-written version adds a mirror image about the origin. */
  lemma FourWayAsWrittenOffAxis(o: Vec)
    requires o.x != 0 || o.y != 0
    ensures FourWay(map[o := Octo(OctoCell.Fresh)], o).Keys == {o}
    ensures FourWayAsWritten(map[o := Octo(OctoCell.Fresh)], o).Keys != {o}
  {
    FourWayOfCentre(o);
    FourWayAsWrittenOfCentre(o);
  }

  /** Facts about the three maps `four_way` combines: each undoes itself, the
      two reflections commute, and the swap exchanges one for the other. */
  lemma FourWayPointAlgebra(p: Vec, o: Vec)
    ensures SwapPoint(SwapPoint(p, o), o) == p
    ensures ReflectPoint(ReflectPoint(p, FlipX, o), FlipX, o) == p
    ensures ReflectPoint(ReflectPoint(p, FlipY, o), FlipY, o) == p
    ensures ReflectPoint(ReflectPoint(p, FlipY, o), FlipX, o) == ReflectPoint(ReflectPoint(p, FlipX, o), FlipY, o)
    ensures SwapPoint(ReflectPoint(p, FlipX, o), o) == ReflectPoint(SwapPoint(p, o), FlipY, o)
    ensures SwapPoint(ReflectPoint(p, FlipY, o), o) == ReflectPoint(SwapPoint(p, o), FlipX, o)
  {
  }

  predicate SwapClosed(keys: set<Vec>, o: Vec)
  {
    forall p :: p in keys ==> SwapPoint(p, o) in keys
  }

  predicate ReflectionClosed(keys: set<Vec>, rv: Vec, o: Vec)
  {
    forall p :: p in keys ==> ReflectPoint(p, rv, o) in keys
  }

  /** Adding the swapped images makes a key set closed under the swap. */
  lemma SwapStepClosed(keys: set<Vec>, o: Vec)
    ensures SwapClosed(keys + SwapImage(keys, o), o)
  {
    forall s | s in keys + SwapImage(keys, o) ensures SwapPoint(s, o) in keys + SwapImage(keys, o) {
      if s !in keys {
        var k :| k in keys && SwapPoint(k, o) == s;
        FourWayPointAlgebra(k, o);
      }
    }
  }

  /** Adding the mirror images makes a key set closed under the reflection. */
  lemma ReflectStepClosed(keys: set<Vec>, rv: Vec, o: Vec)
    requires IsSignVec(rv)
    ensures ReflectionClosed(keys + Image(keys, rv, o), rv, o)
  {
    forall q | q in keys + Image(keys, rv, o) ensures ReflectPoint(q, rv, o) in keys + Image(keys, rv, o) {
      if q !in keys {
        var s :| s in keys && ReflectPoint(s, rv, o) == q;
        ReflectPointInvolution(s, rv, o);
      }
    }
  }

  /** Reflecting in y keeps closure under the x-reflection, which commutes with it. */
  lemma ReflectYKeepsX(x: set<Vec>, o: Vec)
    requires ReflectionClosed(x, FlipX, o)
    ensures ReflectionClosed(x + Image(x, FlipY, o), FlipX, o)
  {
    forall p | p in x + Image(x, FlipY, o) ensures ReflectPoint(p, FlipX, o) in x + Image(x, FlipY, o) {
      if p !in x {
        var q :| q in x && ReflectPoint(q, FlipY, o) == p;
        FourWayPointAlgebra(q, o);
        assert ReflectPoint(p, FlipX, o) == ReflectPoint(ReflectPoint(q, FlipX, o), FlipY, o);
      }
    }
  }

  /** After both reflections a swap-closed set is swap-closed again: the swap
      exchanges the two reflections. */
  lemma ReflectionsKeepSwap(s: set<Vec>, o: Vec)
    requires SwapClosed(s, o)
    ensures var x := s + Image(s, FlipX, o); SwapClosed(x + Image(x, FlipY, o), o)
  {
    var x := s + Image(s, FlipX, o);
    var y := x + Image(x, FlipY, o);
    forall q | q in x ensures SwapPoint(q, o) in y {
      if q !in s {
        var t :| t in s && ReflectPoint(t, FlipX, o) == q;
        FourWayPointAlgebra(t, o);
        assert SwapPoint(q, o) == ReflectPoint(SwapPoint(t, o), FlipY, o);
      }
    }
    forall p | p in y ensures SwapPoint(p, o) in y {
      if p !in x {
        var q :| q in x && ReflectPoint(q, FlipY, o) == p;
        FourWayPointAlgebra(q, o);
        assert SwapPoint(p, o) == ReflectPoint(SwapPoint(q, o), FlipX, o);
        if q in s {
          assert SwapPoint(q, o) in s;
        } else {
          var t :| t in s && ReflectPoint(t, FlipX, o) == q;
          FourWayPointAlgebra(t, o);
          var w := SwapPoint(t, o);
          FourWayPointAlgebra(w, o);
          assert SwapPoint(p, o) == ReflectPoint(ReflectPoint(w, FlipX, o), FlipY, o);
        }
      }
    }
  }

  /** The corrected `four_way` output is symmetric about the centre: closed
      under the swap and both reflections. */
  lemma FourWayClosed(g: Grid, o: Vec)
    ensures SwapClosed(FourWay(g, o).Keys, o)
    ensures ReflectionClosed(FourWay(g, o).Keys, FlipX, o)
    ensures ReflectionClosed(FourWay(g, o).Keys, FlipY, o)
  {
    var s := SwapStep(g, o).Keys;
    var x := Reflect(SwapStep(g, o), FlipX, o).Keys;
    assert s == g.Keys + SwapImage(g.Keys, o);
    assert x == s + Image(s, FlipX, o);
    assert FourWay(g, o).Keys == x + Image(x, FlipY, o);
    SwapStepClosed(g.Keys, o);
    ReflectStepClosed(s, FlipX, o);
    ReflectStepClosed(x, FlipY, o);
    ReflectYKeepsX(x, o);
    ReflectionsKeepSwap(s, o);
  }
}
