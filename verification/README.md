# Octahedral lattice generator: a Dafny model

This project models the integer core of the octahedron-lattice fractal
generator. Each part is a Dafny module, and the proofs are about those
modules.

- **Coordinates** (`Vector`, `OctoUtil`). These are integer 3-vectors with
  their arithmetic, coordinate validation, the power-of-two size helpers
  `p2`, `octo_radius` and `f_rad`, and the direction constants.
- **The grid** (`Grid`). It is a sparse map from coordinate to cell.
  Insertion sorts a coordinate onto the octahedron or tetrahedron sublattice
  by its residues mod 4. The grid also supports `fill`, `crop`, `merge`,
  `compute_trimming`, `reflect` and `four_way`.
- **The cells** (`OctoCell`, `TetraCell`). Each cell derives its weld, trim,
  clip and flip flags from which neighbouring coordinates are occupied. The
  model also covers which belts (rings of vertices) `render` builds, in what
  order, and which vertices the flags move.
- **Mesh topology** (`Mesh`). These are the stitching helpers of
  `GridCell.py` and the face list of `belts_to_trimesh`, over an abstract
  point type.
- **Builders** (`Recipe`, `Sector`).
  - The recipe builder fans each block out in six directions and stacks
    layers. It spawns towers, blooms and echoes, and has a preset library.
  - The sector builder has eight orientations and turns and flips between
    them. It fills a tetrahedral corner of the lattice.
- **The web client's recipe codec** (`Text`, `Codec`, `UrlState`). This is
  the compact layer encoding `3f-2f.oid.b`, the path form with its `-6`
  six-way suffix, and reading and writing the page's query string.
- **Two sandbox puzzles** (`TrainSeats`, `TrainOfEight`, `NodeMath`).
  - Train seating: the brute-force and heap-of-gaps seat orders.
  - The node and edge count of a physical octoflake.

Everything is modelled with immutable values and pure functions. A raise or
a `null` result becomes `None` or `Err` (module `Wrappers`). A builder's
output grid is the grid of fresh cells at the set of coordinates it inserts.
The recipe builder inserts with `insert_cell(center)`, that is non-strict
and with no kind filter, which makes the two the same
(`Grid.MergeFreshGrids`, `Recipe.BuildLayer`); it is therefore modelled by
the set of points it inserts. The sector builder inserts non-strict with
`octo_only` (`Sector.SectorInsertIsOcto`). The recipe builder imports
`octohedra.grid.OctoGrid`, which is not part of this model; the grid of
`backend/Octoflake/analysis/printing/grid/OctoGrid.py` stands in for it.

The main results are these:
- Every cell of a fractal recipe built at a lattice hub is an octahedron
  site. This covers the whole spawn, bloom and echo recursion
  (`Recipe.RecipeOnLattice`).
- Echo recursion terminates even without its cap.
- The codec and the URL state round-trip, for layers without the legacy
  `branch_directions` and `branch_style` fields.
- `crop` and `compute_trimming` are idempotent.
- The heap seating algorithm yields, for every train length, exactly the
  order the brute force yields.

## Model

| member | source | states |
|---|---|---|
| Vector.RSubAsWrittenIsNotSubtraction | Octoflake/analysis/printing/grid/OctoVector.py:66-70 | as written, `(2, 2, 2) - (1, 2, 3)` through `__rsub__` is the product (2, 4, 6), not the difference (1, 0, -1) |
| Vector.RSubAsWritten | Octoflake/analysis/printing/grid/OctoVector.py:66-70 | as written, the result does not depend on the order of the operands, unlike a subtraction |
| Vector.RSubAsWrittenAgreesWhen | Octoflake/analysis/printing/grid/OctoVector.py:66-70 | as written, `__rsub__` gives `other - self` exactly when, in every coordinate, the product of the two equals their difference |
| Vector.RSub | Octoflake/analysis/printing/grid/OctoVector.py:66-73 | the corrected reflected subtraction: adding `self` back to the result gives `other` |
| Vector.Validate | Octoflake/analysis/printing/grid/OctoVector.py:10-13 | succeeds exactly when all three coordinates are whole numbers, and then keeps their values; otherwise the error |
| OctoUtil.P2 | backend/Octoflake/analysis/printing/utils/OctoUtil.py:11-12 | `p2(i, o)` is positive for every integer exponent, and `p2` of exponent 0 is 1 |
| OctoUtil.P2Doubles | backend/Octoflake/analysis/printing/utils/OctoUtil.py:11-12 | `p2(i + 1, o)` is twice `p2(i, o)` for every integer exponent, including negative ones |
| OctoUtil.P2Reciprocal | backend/Octoflake/analysis/printing/utils/OctoUtil.py:11-12 | negating both arguments gives the reciprocal |
| OctoUtil.P2Whole | backend/Octoflake/analysis/printing/utils/OctoUtil.py:11-12 | on a natural exponent, `p2` is the whole power of two, at least 1 |
| OctoUtil.Pow2Add | backend/Octoflake/analysis/printing/utils/OctoUtil.py:11-12 | powers of two multiply by adding exponents |
| OctoUtil.OctoRadius | backend/Octoflake/analysis/printing/utils/OctoUtil.py:14-25 | an error exactly for a negative iteration, 0 for iteration 0, and otherwise `f_rad(i - 1)`, that is `2^i` |
| OctoUtil.FRad | backend/Octoflake/analysis/printing/utils/OctoUtil.py:28-29 | `f_rad()` is 0, and at least 2 when given any iteration |
| OctoUtil.FRadConcat | backend/Octoflake/analysis/printing/utils/OctoUtil.py:28-29 | `f_rad` of two argument lists joined is the sum of `f_rad` of each |
| OctoUtil.FRadSpawnOffset | backend/Octoflake/analysis/printing/utils/OctoUtil.py:28-29 | `f_rad(i) - f_rad(i - 2)` is `3 * 2^(i - 1)` |
| OctoUtil.OppositeDirections | backend/Octoflake/analysis/printing/utils/OctoUtil.py:45-50 | W, S and DOWN are the negations of E, N and UP |
| OctoUtil.DiagonalDirections | backend/Octoflake/analysis/printing/utils/OctoUtil.py:52-55 | NE, NW, SW, SE are the sums of their two cardinal directions |
| OctoUtil.CardinalOrder | backend/Octoflake/analysis/printing/utils/OctoUtil.py:52-57 | CARDINAL lists E, N, W, S, each a quarter turn counter-clockwise from the one before, and each diagonal sits between two consecutive entries |
| Grid.SitesDisjoint | backend/Octoflake/analysis/printing/grid/OctoGrid.py:114-125 | no coordinate passes both the octahedron test and the tetrahedron test |
| Grid.OctoSiteIff | backend/Octoflake/analysis/printing/grid/OctoGrid.py:114-120 | the octahedron test accepts exactly the all-even coordinates whose sum is 2 (mod 4) |
| Grid.OctoSiteParity | backend/Octoflake/analysis/printing/grid/OctoGrid.py:114-120 | every octahedron site has even coordinates with sum 2 (mod 4) |
| Grid.OddStepToOctoSite | backend/Octoflake/analysis/printing/grid/OctoGrid.py:114-120 | an odd step in every axis from an all-odd point, with the right sum mod 4, lands on an octahedron site |
| Grid.TetraProbesOnOctoSites | backend/octohedra/grid/TetraCell.py:24-38 | both neighbours a tetrahedron's corner trim probes are octahedron sites |
| Grid.OctoProbesOnOctoSites | Octoflake/analysis/printing/grid/OctoCell.py:32-55 | every neighbour an octahedron's trim probes is itself an octahedron site |
| Grid.InsertCell | backend/Octoflake/analysis/printing/grid/OctoGrid.py:97-125 | only the given coordinate changes; it ends up occupied unless the insertion is strict and the coordinate is on neither sublattice (or on one it excludes), and in that case the grid is left exactly as it was, any cell already there included; an octahedron site gets a fresh octahedron unless `tetra_only`, a tetrahedron site a fresh tetrahedron unless `octo_only`; a non-strict insertion always leaves a fresh cell |
| Grid.DefaultInsertIsFresh | backend/Octoflake/analysis/printing/grid/OctoGrid.py:106-125 | a default insertion overwrites the coordinate with the fresh cell of its sublattice, whatever was there |
| Grid.FreshGrid | backend/Octoflake/analysis/printing/grid/OctoGrid.py:97-125 | the grid of default insertions holds exactly the inserted coordinates |
| Grid.Merge | backend/Octoflake/analysis/printing/grid/OctoGrid.py:53-55 | the union of both key sets, with the second grid's cell winning where both have one |
| Grid.MergeAssociative | backend/Octoflake/analysis/printing/grid/OctoGrid.py:53-58 | merging is associative |
| Grid.MergeFreshGrids | backend/Octoflake/analysis/printing/grid/OctoGrid.py:53-55 | merging two grids of default insertions gives the grid of the union of their points, so the order of insertion is irrelevant |
| Grid.FillPointsSpec | backend/Octoflake/analysis/printing/grid/OctoGrid.py:132-137 | `fill` visits exactly the points at taxicab distance below the radius from the centre |
| Grid.Fill | backend/Octoflake/analysis/printing/grid/OctoGrid.py:128-143 | without `clear` the grid gains a default insertion at every visited point; with `clear` it fails exactly when a visited point is missing (the `pop` raises) and otherwise loses exactly the visited points |
| Grid.InsertAll | backend/Octoflake/analysis/printing/grid/OctoGrid.py:139-141 | inserting a set of points one by one, in any order, merges their fresh grid over the grid |
| Grid.PopAll | backend/Octoflake/analysis/printing/grid/OctoGrid.py:139-143 | popping a set of points fails exactly when one is missing, and otherwise removes exactly those points |
| Grid.Crop | backend/Octoflake/analysis/printing/grid/OctoGrid.py:159-204 | keeps exactly the keys not strictly outside a bound; a kept octahedron gains the crop flag of each bound it lies on and nothing else changes; other cells are untouched |
| Grid.CropIdempotent | backend/Octoflake/analysis/printing/grid/OctoGrid.py:159-204 | cropping twice with the same bounds is cropping once |
| Grid.TrimCell | Octoflake/analysis/printing/grid/GridCell.py:91-92 | the base `GridCell`'s `trim` raises `NotImplementedError`; an octahedron or tetrahedron trims to a cell of the same kind, and a tetrahedron's flip is set exactly when its coordinate sum is 1 (mod 4) |
| Grid.RenderCell | Octoflake/analysis/printing/grid/GridCell.py:94-95 | the base `GridCell`'s `render` raises `NotImplementedError`; an octahedron fails exactly when its top is cropped and otherwise has at least two body belts; a tetrahedron always renders four belts |
| Grid.ComputeTrimming | backend/Octoflake/analysis/printing/grid/OctoGrid.py:206-209 | fails exactly when the grid holds a bare `GridCell` (whose `trim` raises); otherwise keeps the keys and trims every cell against the full key set |
| Grid.ComputeTrimmingIdempotent | backend/Octoflake/analysis/printing/grid/OctoGrid.py:206-209 | trimming a trimmed grid again changes nothing |
| Grid.TrimmedCellIsFixed | backend/Octoflake/analysis/printing/grid/OctoGrid.py:206-209 | an octahedron or tetrahedron trimmed against a key set is unchanged by trimming it again against the same set |
| Grid.FreshGridTrims | backend/Octoflake/analysis/printing/grid/OctoGrid.py:97-125 | a grid built by default insertions has no bare `GridCell`, so trimming it succeeds |
| Grid.Reflect | backend/Octoflake/analysis/printing/grid/OctoGrid.py:242-253 | the keys become the old keys plus their mirror images `(p - o) * rv + o`; each image holds a fresh cell and every other key keeps its cell |
| Grid.ReflectPointInvolution | backend/Octoflake/analysis/printing/grid/OctoGrid.py:246 | with a ±1 reflection vector, mirroring twice gives the point back |
| Grid.ReflectClosed | backend/Octoflake/analysis/printing/grid/OctoGrid.py:242-253 | after `reflect` with a ±1 vector, the mirror image of every key is a key |
| Grid.SwapPointIsSourceExpression | backend/Octoflake/analysis/printing/grid/OctoGrid.py:258-259 | the modelled swap is `(y, x, z)` of `p - o`, plus `o` |
| Grid.FourWayAsWrittenNotSymmetric | backend/Octoflake/analysis/printing/grid/OctoGrid.py:255-265 | as written, a single octahedron at the centre (4, 0, 0) comes out as {(4, 0, 0), (-4, 0, 0)}, whose mirror about the centre, (12, 0, 0), is missing |
| Grid.FourWay | backend/Octoflake/analysis/printing/grid/OctoGrid.py:255-265 | the corrected four-way symmetry keeps every key it started with |
| Grid.FourWayAsWritten | backend/Octoflake/analysis/printing/grid/OctoGrid.py:255-265 | as written, every key of the input grid is still a key of the result |
| Grid.FourWayAsWrittenOnAxis | backend/Octoflake/analysis/printing/grid/OctoGrid.py:255-265 | when the centre of rotation lies on the z axis, the as-written `four_way` equals the corrected one on every grid |
| Grid.FourWayOfCentre | backend/Octoflake/analysis/printing/grid/OctoGrid.py:255-265 | with the corrected reflections, a single octahedron at the centre of rotation is its own four-way image |
| Grid.FourWayAsWrittenOfCentre | backend/Octoflake/analysis/printing/grid/OctoGrid.py:255-265 | as written, a single octahedron at a centre of rotation off the z axis gains a second key, its mirror about the origin |
| Grid.FourWayAsWrittenOffAxis | backend/Octoflake/analysis/printing/grid/OctoGrid.py:255-265 | for every centre of rotation off the z axis the two versions differ: the corrected one maps a centred octahedron to itself and the as-written one does not |
| Grid.FourWayPointAlgebra | backend/Octoflake/analysis/printing/grid/OctoGrid.py:255-265 | the swap and both reflections about the centre each undo themselves, the reflections commute, and the swap turns one reflection into the other |
| Grid.SwapStepClosed | backend/Octoflake/analysis/printing/grid/OctoGrid.py:256-261 | after adding the swapped images, the keys are closed under the swap |
| Grid.ReflectStepClosed | backend/Octoflake/analysis/printing/grid/OctoGrid.py:242-253 | after adding the mirror images, the keys are closed under that reflection |
| Grid.FourWayClosed | backend/Octoflake/analysis/printing/grid/OctoGrid.py:255-265 | the corrected four-way output is closed under the swap and under both reflections about the centre |
| OctoCell.ProbesAreSourceOffsets | Octoflake/analysis/printing/grid/OctoCell.py:32-55 | the modelled probe positions are the source's offsets: two steps along each diagonal, and `(±Z + X) * 2` and so on above and below |
| OctoCell.AllInMeans | Octoflake/analysis/printing/grid/OctoCell.py:62-63 | `all(...)` over the probes holds exactly when every probe is occupied |
| OctoCell.AnyInMeans | Octoflake/analysis/printing/grid/OctoCell.py:60 | `any(...)` over the probes holds exactly when some probe is occupied |
| OctoCell.Trim | Octoflake/analysis/printing/grid/OctoCell.py:32-63 | each diagonal trim is set exactly when the neighbour two steps along that diagonal is occupied; `weld_up` exactly when all five attic probes are occupied, `clip_point_up` exactly when none is, `weld_down` exactly when all four basement probes are; the crop flags are kept |
| OctoCell.WeldExcludesClip | Octoflake/analysis/printing/grid/OctoCell.py:60-62 | a trimmed cell never has both `weld_up` and `clip_point_up` |
| OctoCell.TrimIdempotent | Octoflake/analysis/printing/grid/OctoCell.py:32-63 | trimming again against the same occupancy changes nothing |
| OctoCell.TrimTranslationInvariant | Octoflake/analysis/printing/grid/OctoCell.py:32-63 | shifting the cell and the whole occupancy by the same vector gives the same flags |
| OctoCell.WeldSymmetry | Octoflake/analysis/printing/grid/OctoCell.py:42-63 | a cell that welds upward has the cell four steps above it occupied, and that cell welds downward |
| OctoCell.BevelDirectionBetweenCorners | Octoflake/analysis/printing/grid/OctoCell.py:118-145 | each diagonal trim moves two consecutive equator corners, and its direction is the sum of those corners' cardinal directions |
| OctoCell.EquatorBevels | Octoflake/analysis/printing/grid/OctoCell.py:118-145 | equator corner k is moved by exactly the set trims whose diagonal touches it |
| OctoCell.BodyKindsSpec | Octoflake/analysis/printing/grid/OctoCell.py:100-147 | the body belts run strictly top to bottom; each kind appears exactly when its weld, clip, sharp and crop conditions say; there are 2 to 8 belts |
| OctoCell.Render | Octoflake/analysis/printing/grid/OctoCell.py:65-196 | fails exactly when `crop_top` is set (the upper belts are never bound); otherwise every belt, the lower flange ring included, has the four corners E, N, W, S, a corner is collapsed exactly when its crop flag is set, only the equator carries the diagonal trims, and the flange stack appears exactly when the bottom is cropped and the flange height is positive |
| OctoCell.RenderFaceCount | Octoflake/analysis/printing/grid/OctoCell.py:192-196 | the cell's mesh has two caps plus four quads per adjacent pair of body belts, plus six faces when the flange is present |
| TetraCell.ProbeSign | backend/octohedra/grid/TetraCell.py:25 | the probes' vertical direction is +1 exactly when the coordinate sum is 3 (mod 4), otherwise -1 |
| TetraCell.ProbesAreSourceOffsets | backend/octohedra/grid/TetraCell.py:25-33 | the modelled probe positions are the source's sums `center ± Z * flip + diagonal + 2 * cardinal` |
| TetraCell.ProbesOnDiagonalSide | backend/octohedra/grid/TetraCell.py:26-33 | both probes of a trim lie on that diagonal's side of the cell in x and in y |
| TetraCell.Trim | backend/octohedra/grid/TetraCell.py:24-39 | a diagonal is trimmed exactly when either of its two probes is occupied; the cell is flipped exactly when its coordinate sum is 1 (mod 4) |
| TetraCell.FlipIgnoresOccupancy | backend/octohedra/grid/TetraCell.py:39 | the flip depends only on the position |
| TetraCell.FlipMatchesProbeSign | backend/octohedra/grid/TetraCell.py:25-39 | at an odd coordinate sum the cell is flipped exactly when its probes point down |
| TetraCell.TrimMonotone | backend/octohedra/grid/TetraCell.py:35-38 | adding occupied coordinates never removes a trim |
| TetraCell.FlipBeltsInvolution | backend/octohedra/grid/TetraCell.py:102-104 | mirroring z and reversing every belt twice restores the belts |
| TetraCell.Render | backend/octohedra/grid/TetraCell.py:42-107 | four belts of four vertices, each labelled with the apex its belt and slot hang off; a trim moves exactly the outer-belt vertices of its own apex; when flipped every vertex is mirrored and each belt is read backwards |
| TetraCell.RenderBevels | backend/octohedra/grid/TetraCell.py:87-98 | the bevelled vertices are exactly the slots the source moves: NE bottom 0 and 3, NW top 0 and 1, SW bottom 1 and 2, SE top 2 and 3, flipped or not |
| TetraCell.RenderFaceCount | backend/octohedra/grid/TetraCell.py:100-107 | a tetrahedron mesh always has fourteen faces: two caps and twelve quads |
| Mesh.StitchBeltToPoint | Octoflake/analysis/printing/grid/GridCell.py:11-22 | four triangles, the k-th joining belt points k and k+1 (wrapping) to the apex, each with reversed winding when `is_bottom` |
| Mesh.StitchBelts | Octoflake/analysis/printing/grid/GridCell.py:25-35 | two triangles per belt position |
| Mesh.StitchBeltsSplitsQuads | Octoflake/analysis/printing/grid/GridCell.py:25-79 | the two triangles `stitch_belts` emits at position i are the quad `belts_to_trimesh` emits there, split along a diagonal |
| Mesh.SealBelt | Octoflake/analysis/printing/grid/GridCell.py:38-47 | two triangles; the bottom seal is the top seal with every winding reversed |
| Mesh.Prev | Octoflake/analysis/printing/grid/GridCell.py:30 | Python's `belt[k - 1]` names the position just before k, wrapping to the last |
| Mesh.Flatten | Octoflake/analysis/printing/grid/GridCell.py:56 | the flattened stack holds exactly the points of the belts |
| Mesh.DedupSpec | Octoflake/analysis/printing/grid/GridCell.py:56-61 | the first-seen point list has no repeats, holds every point, and keeps the order of first occurrence |
| Mesh.IndexPoints | Octoflake/analysis/printing/grid/GridCell.py:51-61 | the point list is the first-seen list, and the dictionary maps exactly the seen points to their position in it |
| Mesh.PolygonsCount | Octoflake/analysis/printing/grid/GridCell.py:66-79 | two caps plus one quad per position for each adjacent pair of belts |
| Mesh.PolygonPointsInBelts | Octoflake/analysis/printing/grid/GridCell.py:63-79 | every point a face names is a point of the belt stack, so every `lookup` succeeds |
| Mesh.BeltsToTrimesh | Octoflake/analysis/printing/grid/GridCell.py:50-81 | the points are the distinct belt points in first-seen order; there are `2 + (belts - 1) * width` faces; every face index is in range and names exactly the points of the top cap, the reversed bottom cap, or a quad |
| Sector.AxesRightHanded | Octoflake/analysis/printing/builders/OctoSectorBuilder.py:33-46 | each of the eight orientations is a right-handed frame whose z axis points up exactly for the U orientations |
| Sector.TurnRight | Octoflake/analysis/printing/builders/OctoSectorBuilder.py:74-75 | `turn_right` is the inverse lookup of the left-turn table: turning its result left gives the input back |
| Sector.TurnsInverse | Octoflake/analysis/printing/builders/OctoSectorBuilder.py:48-79 | turning left then right, or right then left, is the identity |
| Sector.FourLeftsIdentity | Octoflake/analysis/printing/builders/OctoSectorBuilder.py:48-57 | four left turns are the identity, and two are not |
| Sector.FlipZInvolution | Octoflake/analysis/printing/builders/OctoSectorBuilder.py:59-71 | flipping twice is the identity, and a flip exchanges U and D |
| Sector.TurnLeft | Octoflake/analysis/printing/builders/OctoSectorBuilder.py:39-57 | a left turn keeps U orientations up and D ones down, and always changes the orientation |
| Sector.FlipZ | Octoflake/analysis/printing/builders/OctoSectorBuilder.py:59-71 | a flip turns every U orientation into a D one and every D one into a U one |
| Sector.TurnLeftRotates | Octoflake/analysis/printing/builders/OctoSectorBuilder.py:39-57 | a left turn keeps the z axis and turns both horizontal axes a quarter turn: counter-clockwise from above for U frames, clockwise for D frames |
| Sector.FlipZSwapsAxes | Octoflake/analysis/printing/builders/OctoSectorBuilder.py:39-71 | a flip swaps the horizontal axes and reverses z |
| Sector.ProjectPlace | Octoflake/analysis/printing/builders/OctoSectorBuilder.py:160 | the local coordinates of `ox*x + oy*y + oz*z + center` are (x, y, z) again |
| Sector.PlaceProject | Octoflake/analysis/printing/builders/OctoSectorBuilder.py:160 | every point is placed by its own local coordinates |
| Sector.SectorPointsSpec | Octoflake/analysis/printing/builders/OctoSectorBuilder.py:154-165 | `fill_sector` covers exactly the points whose local coordinates are non-negative and sum to less than `p2(iteration)` |
| Sector.FillSector | Octoflake/analysis/printing/builders/OctoSectorBuilder.py:154-168 | the keys become the old keys plus the sector's points, each holding a fresh octahedron; other keys keep their cells |
| Sector.SectorInsertIsOcto | Octoflake/analysis/printing/builders/OctoSectorBuilder.py:167-168 | an `octo_only`, non-strict insertion leaves a fresh octahedron at the point, whatever its site |
| Recipe.SpawnDirections | backend/octohedra/builders/RecipeBuilder.py:246-272 | at the root the result is all four horizontal units when "out" is present and nothing otherwise. Below the root a direction is spawned exactly when "out" names the origin, "in" names its reverse, or "side" names a perpendicular unit, whatever the order of the options |
| Recipe.PerpendicularSpec | backend/octohedra/builders/RecipeBuilder.py:263-270 | from a horizontal unit, "side" gives exactly two horizontal units, both at right angles to it |
| Recipe.SpawnDirectionsHorizontal | backend/octohedra/builders/RecipeBuilder.py:223-272 | every spawn direction is one of the four horizontal units, so every spawned builder's origin is one as well |
| Recipe.ChildPointsMember | backend/octohedra/builders/RecipeBuilder.py:590-594 | a point is in the first n sub-blocks exactly when it is in one of them |
| Recipe.FractalUnfold | backend/octohedra/builders/RecipeBuilder.py:590-594 | a fractal block of depth 1 or more is the union of its six sub-blocks, each at `2*p2(depth-1)` along E, N, W, S, up and down |
| Recipe.BlockPoints | backend/octohedra/builders/RecipeBuilder.py:575-579 | a block of depth 0 is its centre alone |
| Recipe.FractalMember | backend/octohedra/builders/RecipeBuilder.py:590-594 | every point of a fractal block lies in one of its six sub-blocks |
| Recipe.FractalCount | backend/octohedra/builders/RecipeBuilder.py:575-594 | a fractal block of depth d inserts at most 6^d cells |
| Recipe.FractalExtent | backend/octohedra/builders/RecipeBuilder.py:582-584 | a fractal block reaches at most `p2(depth+1) - 2` from its centre in taxicab distance |
| Recipe.FractalWithinSolid | backend/octohedra/builders/RecipeBuilder.py:581-588 | the solid block of radius `p2(depth+1) - 1` contains the fractal block of the same depth |
| Recipe.BuildLayer | backend/octohedra/builders/RecipeBuilder.py:575-594 | building a layer into a grid gives the grid merged with fresh cells at exactly the block's points, for both shapes and at depth 0 |
| Recipe.BuildChildren | backend/octohedra/builders/RecipeBuilder.py:592-594 | building the first n sub-blocks one after another gives the grid merged with fresh cells at their union |
| Recipe.FractalOnLattice | backend/octohedra/builders/RecipeBuilder.py:575-594 | from a hub, every cell of a fractal block of depth 1 or more is an octahedron site |
| Recipe.RootBuilder | backend/octohedra/builders/RecipeBuilder.py:225-228 | a root builder has at least one layer: its own layers when there are any, else one layer of the default depth 3 |
| Recipe.EchoLayers | backend/octohedra/builders/RecipeBuilder.py:412-427 | the echo recipe holds exactly the copies of the layers of depth 2 or more, each one level shallower, every one of depth 1 or more and without `attach_next_at` |
| Recipe.EchoLayersMaxDepth | backend/octohedra/builders/RecipeBuilder.py:412-429 | echoing lowers the deepest layer by exactly one, and a recipe with nothing deeper than 1 echoes to nothing, so echo recursion ends |
| Recipe.EchoBuilder | backend/octohedra/builders/RecipeBuilder.py:401-436 | an echo spawn is one echo level deeper under the same cap, and its origin is the spawn direction |
| Recipe.BloomLayers | backend/octohedra/builders/RecipeBuilder.py:454-461 | a bloom spawn has depths `i-1` down to 1, and every layer but the depth-1 one re-spawns with the same options and blooms |
| Recipe.BloomBuilder | backend/octohedra/builders/RecipeBuilder.py:440-470 | a bloom spawn starts a fresh echo count, comes from the spawn direction, sits `p2(i+1)` out along it and `p2(i)` above the layer, and is shallower than the spawning layer |
| Recipe.TowerLayers | backend/octohedra/builders/RecipeBuilder.py:487-490 | a plain spawn is a tower of depths `i-1` down to 1 with no further spawning |
| Recipe.TowerBuilder | backend/octohedra/builders/RecipeBuilder.py:472-499 | a plain spawn starts a fresh echo count, comes from the spawn direction, sits `3 * p2(i-1)` out along it and `p2(i-1)` above the layer, and is shallower than the spawning layer |
| Recipe.SpawnBuilders | backend/octohedra/builders/RecipeBuilder.py:393-401 | every builder a layer spawns has a smaller deepest layer than its parent, so spawning always ends; a layer without spawn options, below depth 2, or an echo layer at the echo cap spawns no builder |
| Recipe.SpawnPoints | backend/octohedra/builders/RecipeBuilder.py:393-401 | a layer without spawn options or below depth 2 spawns nothing, and an echo layer at the echo cap spawns nothing |
| Recipe.LayersFromUnion | backend/octohedra/builders/RecipeBuilder.py:356-571 | the layer loop from layer k on inserts exactly the union of layers k and later, each built at its centre height |
| Recipe.MaterializeUnion | backend/octohedra/builders/RecipeBuilder.py:355-573 | a builder inserts exactly the union over its layers of each layer's block and spawns at its centre height |
| Recipe.Materialize | backend/octohedra/builders/RecipeBuilder.py:355-573 | a builder with no layers inserts nothing; otherwise everything its first layer inserts at the builder's own height is among its cells |
| Recipe.LayersRise | backend/octohedra/builders/RecipeBuilder.py:356-571 | each layer's centre is strictly above every earlier layer's centre |
| Recipe.TowerCentreZ | backend/octohedra/builders/RecipeBuilder.py:356-571 | in a tower whose depths fall by one from d and that has no attach points, layer k sits at `p2(d+2) - p2(d+2-k)` |
| Recipe.EchoOnLattice | backend/octohedra/builders/RecipeBuilder.py:398-438 | an echo spawn of a builder on the lattice is again on the lattice |
| Recipe.BloomOnLattice | backend/octohedra/builders/RecipeBuilder.py:440-470 | a bloom spawn of a builder on the lattice is again on the lattice |
| Recipe.TowerOnLattice | backend/octohedra/builders/RecipeBuilder.py:472-499 | a plain tower spawn of a builder on the lattice is again on the lattice |
| Recipe.MaterializeOnLattice | backend/octohedra/builders/RecipeBuilder.py:355-573 | every cell that a builder on the lattice inserts, including all its spawns, is an octahedron site |
| Recipe.RecipeOnLattice | backend/octohedra/builders/RecipeBuilder.py:355-573 | a recipe of fractal layers of depth 1 or more, built at a hub, puts every cell on an octahedron site. This includes the default recipe |
| Recipe.PresetNamed | backend/octohedra/builders/RecipeBuilder.py:126-127 | a preset's name selects that preset, and any other name selects the flake |
| Recipe.MinDepth | backend/octohedra/builders/RecipeBuilder.py:137-171 | the smallest depth of a stacked preset is at least 1 |
| Recipe.PresetLayer | backend/octohedra/builders/RecipeBuilder.py:142-181 | a stacked preset's layer has spawns exactly when it is above the smallest depth and the preset is the evil tower, the flower or the temple complex. It blooms only for the flower, and it echoes only for the temple complex's first layer |
| Recipe.PresetLayers | backend/octohedra/builders/RecipeBuilder.py:118-186 | the flake is one layer of the given depth. Every other preset runs down one depth at a time to its smallest depth. Spawning, blooming and echoing fall on exactly the layers the source assigns them to |
| Recipe.PresetTableAgrees | backend/octohedra/builders/RecipeBuilder.py:74-181 | the fixed `PRESET_RECIPES` table equals `get_preset_recipe` at the matching depth and stack height |
| Recipe.PresetOnLattice | backend/octohedra/builders/RecipeBuilder.py:118-186 | every preset of depth 1 or more, built at a hub, puts every cell on an octahedron site |
| Text.Split | client/lib/recipe-encoding.ts:64-116 | `split` gives at least one piece, and no piece contains the separator |
| Text.JoinSplit | client/lib/recipe-encoding.ts:56-64 | joining the pieces of a split with the same separator restores the string |
| Text.SplitJoin | client/lib/recipe-encoding.ts:56-116 | splitting a join of one or more separator-free pieces gives the pieces back |
| Text.JoinChars | client/lib/recipe-encoding.ts:56 | a character other than the separator occurs in a join exactly when it occurs in one of the pieces |
| Text.NatToStringValue | client/lib/recipe-encoding.ts:40-71 | reading back the decimal digits of a natural number gives the number |
| Text.IntToString | client/lib/recipe-encoding.ts:40 | the decimal rendering contains a minus sign exactly for negative numbers, never a dot, and one digit for 0 to 9 |
| Codec.SpawnCodeInverse | client/lib/recipe-encoding.ts:29-30 | a character decodes to a spawn exactly when it is that spawn's code |
| Codec.SortCodes | client/lib/recipe-encoding.ts:44 | sorting the spawn codes gives a sorted permutation of them |
| Codec.SortSorted | client/lib/recipe-encoding.ts:44 | sorting codes that are already sorted changes nothing |
| Codec.LayerParts | client/lib/recipe-encoding.ts:36-54 | an encoded layer has its depth-and-shape head, then a spawns part exactly when there are spawns, then a flags part exactly when there are spawns and bloom or echo is set |
| Codec.EncodeLayer | client/lib/recipe-encoding.ts:35-57 | the encoding starts with the depth digit and the shape code, fractal when none is given. It contains a `-` only for a negative depth and ends with a shape, spawn or flag code |
| Codec.DecodeSpawns | client/lib/recipe-encoding.ts:79-88 | a spawns part decodes to no spawns exactly when it has no spawn code, and every decoded spawn's code occurs in it |
| Codec.DecodeCodes | client/lib/recipe-encoding.ts:29-84 | the spawn codes of some spawns decode to those same spawns |
| Codec.DecodeSpawnsSkip | client/lib/recipe-encoding.ts:81-84 | a character that is not a spawn code changes nothing wherever it stands |
| Codec.SpawnField | client/lib/recipe-encoding.ts:79-88 | the spawn list is set, and is non-empty, exactly when a second part exists and contains a spawn code |
| Codec.FlagField | client/lib/recipe-encoding.ts:91-94 | a flag is only ever set to true, and exactly when spawns were decoded and a third part contains its letter |
| Codec.DecodeParts | client/lib/recipe-encoding.ts:62-100 | decoding succeeds exactly when the first part is one digit from 1 to 5 followed by `f` or `s`. The result's depth and shape come from that part, its spawns from the second and its flags from the third |
| Codec.DecodeLayer | client/lib/recipe-encoding.ts:62-100 | decoding succeeds exactly when the head is valid, and every decoded layer is well formed |
| Codec.DecodeEncodeLayer | client/lib/recipe-encoding.ts:35-100 | decoding an encoded normalised layer gives the layer back |
| Codec.DecodeAll | client/lib/recipe-encoding.ts:116-123 | the loop yields layers exactly when every piece decodes, one layer per piece in order |
| Codec.DecodeLayers | client/lib/recipe-encoding.ts:112-129 | decoding fails for the empty string and whenever any `-`-separated piece fails. Otherwise it gives one layer per piece, at least one |
| Codec.DecodeEncodeLayers | client/lib/recipe-encoding.ts:105-129 | decoding the encoding of a non-empty list of normalised layers gives the list back |
| Codec.ParseRecipeFromPath | client/lib/recipe-encoding.ts:135-143 | a parsed path's six-way flag is set exactly when the path ends with `-6`, and parsing succeeds exactly when the rest decodes |
| Codec.EncodeLayers | client/lib/recipe-encoding.ts:105-107 | no layers encode to the empty string; any other encoding ends with a layer code, never with `6` |
| Codec.CodeIsNotSix | client/lib/recipe-encoding.ts:135-152 | a string that ends with a layer code does not end with the six-way suffix |
| Codec.SixSuffix | client/lib/recipe-encoding.ts:148-152 | appending `-6` always gives a string with the six-way suffix |
| Codec.EncodeRecipeToPath | client/lib/recipe-encoding.ts:148-152 | for a non-empty recipe, the path ends with `-6` exactly when the six-way flag is set |
| Codec.PathRoundTrip | client/lib/recipe-encoding.ts:135-152 | parsing an encoded path gives back the layers and the six-way flag |
| UrlState.ValidPreset | client/hooks/useUrlSync.ts:142-153 | a preset's name selects that preset, and any other string selects none |
| UrlState.ParseUrlState | client/hooks/useUrlSync.ts:147-178 | the preset is read only from a valid name and the layers only when they decode. Each flag is present exactly when its key is, and it is true exactly for the value `1` |
| UrlState.BuildUrlParams | client/hooks/useUrlSync.ts:183-202 | only `l`, `6` and `r` are written: the encoded layers when there are any, `6=1` exactly when six-way is on, and `r=0` exactly when auto-rotate is off |
| UrlState.ParseBuild | client/hooks/useUrlSync.ts:147-202 | reading the written parameters back recovers the non-empty normalised layers and the effective six-way and auto-rotate settings. The preset is lost |
| UrlState.BuildParseBuild | client/hooks/useUrlSync.ts:147-202 | writing what was read from written parameters gives the same parameters |
| UrlState.BuildParseFlags | client/hooks/useUrlSync.ts:166-199 | any query string read and written back keeps `6` only with the value `1`, turns any other `r` into `r=0`, and drops the preset |
| TrainSeats.OccupiedTake | Octoflake/analysis/sandbox/TrainSeats.py:61-96 | the seat list starts all free, and seating a passenger (`seats[best_seat] = True`) marks that one seat and leaves every other entry as it was |
| TrainSeats.FreeSeatExists | Octoflake/analysis/sandbox/TrainSeats.py:62-75 | while fewer than n distinct seats are taken, a free seat remains |
| TrainSeats.EmptyLeftSpec | Octoflake/analysis/sandbox/TrainSeats.py:79-87 | the run counted left of a seat is all free and stops at an occupied seat or the front of the train |
| TrainSeats.EmptyRightSpec | Octoflake/analysis/sandbox/TrainSeats.py:83-88 | the run counted right of a seat is all free and stops at an occupied seat or the back of the train |
| TrainSeats.ChoiceUnique | Octoflake/analysis/sandbox/TrainSeats.py:9-16 | the three seating rules select at most one seat |
| TrainSeats.ScanScore | Octoflake/analysis/sandbox/TrainSeats.py:77-91 | the two scans give the seat's (distance to the nearest occupied seat or end, gap size) score |
| TrainSeats.ChooseSeat | Octoflake/analysis/sandbox/TrainSeats.py:62-95 | one round returns -1 exactly when every seat is taken. Otherwise it returns the free seat with the largest score, the lowest index among equals |
| TrainSeats.BruteForceSeating | Octoflake/analysis/sandbox/TrainSeats.py:55-97 | the brute force yields n seats, each the rules' choice given the seats before it, and every seat exactly once. For n = 0 it yields nothing |
| TrainSeats.BruteSpecUnique | Octoflake/analysis/sandbox/TrainSeats.py:9-97 | the rules determine the whole order: two orders that both follow them are equal |
| TrainSeats.MinFromSpec | Octoflake/analysis/sandbox/TrainSeats.py:118-123 | the gap popped is first in heap order: no gap is larger, and no equal gap starts further left |
| TrainSeats.Split | Octoflake/analysis/sandbox/TrainSeats.py:126-130 | the seat goes at `(l+r)//2`, strictly inside a non-empty gap. The two gaps left have sizes summing to the parent's size minus one and differ by at most one, the right one never smaller |
| TrainSeats.HeapSeating | Octoflake/analysis/sandbox/TrainSeats.py:113-121 | the heap version yields n seats, so nothing for n = 0 |
| TrainSeats.HeapRun | Octoflake/analysis/sandbox/TrainSeats.py:117-131 | `k` rounds seat `k` passengers, the first in the middle (rounded down) of a biggest gap |
| TrainSeats.HeapStepInv | Octoflake/analysis/sandbox/TrainSeats.py:121-131 | while seats remain, a step seats someone new inside the train and keeps the gaps a disjoint cover of exactly the free seats |
| TrainSeats.HeapSeatingPermutation | Octoflake/analysis/sandbox/TrainSeats.py:113-131 | the heap version yields every seat exactly once |
| TrainSeats.GapScore | Octoflake/analysis/sandbox/TrainSeats.py:77-91 | a free seat's score depends only on the gap of free seats around it |
| TrainSeats.MiddleBest | Octoflake/analysis/sandbox/TrainSeats.py:87-126 | the middle of a gap scores at least as well as any seat of a gap no larger. It scores strictly better against a smaller gap and against the seats left of it in the same gap |
| TrainSeats.SameSizeRight | Octoflake/analysis/sandbox/TrainSeats.py:118-123 | of two disjoint gaps of equal size, every seat of the one ordered later lies right of the other's middle |
| TrainSeats.MiddleBeats | Octoflake/analysis/sandbox/TrainSeats.py:91-126 | no free seat scores above the middle of the largest, leftmost gap, and every free seat left of it scores strictly below |
| TrainSeats.GapChoice | Octoflake/analysis/sandbox/TrainSeats.py:91-126 | the middle of the largest, leftmost gap is the rules' choice |
| TrainSeats.HeapGaps | Octoflake/analysis/sandbox/TrainSeats.py:120-130 | the heap's gaps are exactly the runs of free seats between taken seats and the ends |
| TrainSeats.HeapChoice | Octoflake/analysis/sandbox/TrainSeats.py:123-126 | the seat each heap step takes is the one the brute force would pick |
| TrainSeats.HeapRunFollowsRules | Octoflake/analysis/sandbox/TrainSeats.py:121-131 | every seat the heap yields from a consistent state is the rules' choice at that step |
| TrainSeats.HeapFollowsRules | Octoflake/analysis/sandbox/TrainSeats.py:113-131 | the heap version's order follows the rules for every n |
| TrainSeats.BruteForceMatchesHeap | Octoflake/analysis/sandbox/TrainSeats.py:289-294 | for every n, the brute-force order equals the heap order |
| TrainOfEight.EightFollowsRules | Octoflake/analysis/sandbox/TrainSeats.py:18-28 | the order 3, 5, 1, 6, 0, 2, 4, 7 follows the rules for eight seats |
| TrainOfEight.EightSeats | Octoflake/analysis/sandbox/TrainSeats.py:18-28 | for eight seats both generators yield exactly 3, 5, 1, 6, 0, 2, 4, 7 |
| NodeMath.OctoflakeStats | Octoflake/analysis/sandbox/NodeMath.py:27-43 | the edge length reached is a power of two, the largest not above the one asked for |
| NodeMath.StatsDouble | Octoflake/analysis/sandbox/NodeMath.py:31-43 | doubling the edge length doubles the length reached. It combines six copies of the smaller flake, less `6*next + 5` shared nodes and `6*next` shared edges |
| NodeMath.StatsRoundDown | Octoflake/analysis/sandbox/NodeMath.py:28-33 | the figures for a length are those for the power of two it rounds down to |
| NodeMath.StatsClosedForm | Octoflake/analysis/sandbox/NodeMath.py:24-43 | the flake of edge length 2^k has `2*6^k + 3*2^k + 1` nodes and `9*6^k + 3*2^k` edges. For k = 0 this is the single octahedron (1, 6, 12) |
| NodeMath.StatsOfEight | Octoflake/analysis/sandbox/NodeMath.py:27-66 | edge length 8 takes 457 nodes and 1968 edges |

## Left out

- Floating-point geometry. This covers vertex positions, overlap, trim and
  flange sizes, and the translation of rendered cells. Belts are modelled
  over an abstract point type, so only which vertex goes where is stated.
- Mesh objects are not modelled. This covers the `render_cell` cache, the
  numpy and trimesh objects, and the clean-up calls that remove degenerate
  or duplicate faces. These are foreign library calls, so face counts are
  stated before clean-up.
- `OctoGrid`: the sub-grid dispatch and `keep_octo` are not modelled.
  `render` is modelled only per cell, through the cell modules.
  `crop_bottom`, `split`, `carve`, `full_symmetry` and `six_way` are not
  modelled. None of them is among the modelled grid operations. `reflect`'s
  debug `print` is output only.
- The `OctoSectorBuilder` is modelled only by its orientation lookups and
  `fill_sector`. `materialize_sector`, `detailed_core_sector` and
  `materialize_additive` are the builder recursion that uses them, and they
  are not modelled.
- `RecipeBuilder` paths outside the layered spawn, bloom and echo builder
  are not modelled:
  - the legacy `grid_depth` and `branch_directions` paths;
  - `depth_rules`;
  - `bonus_iteration`;
  - `generate_from_recipe`.
- Layer depths are natural numbers. A negative depth is built by the source
  as a single cell, and it gives fractional z offsets through `p2`. A depth
  that is not an integer is not modelled either. The same holds for
  `attach_next_at` (`Layer.attach`): the source accepts a negative value
  (lines 375-379 of `RecipeBuilder.py`), where -1 lifts the next layer by
  `p2(0) = 1` and anything below -1 gives a fractional height; the model
  admits only natural attach points.
- `RecipeBuilder` also exists in a second, older copy under
  `backend/Octoflake`, and this copy is not modelled.
- `OctoVector`: the conversions `to_np`, `as_tuple`, iteration and indexing
  are plain accessors and are not modelled.
- `URLSearchParams` is modelled as a map from a key to its first value.
  Repeated keys and percent-encoding are not modelled.
- The React hook `useUrlSync`, which talks to the browser history, is not
  modelled. The same applies to the client UI and the backend services.
- `queueSeatingGenerator` is a third seating generator, and it is not
  modelled. The timing harness `compare_timing` is not modelled either.
- `octoflake_cost_and_weight` is not modelled. It works in floating-point
  physical units through a units library.
- NodeMath.OctoflakeStats requires an edge length of 1 or more. The source
  recurses forever for 0 and below.
- Codec.DecodeEncodeLayer, Codec.PathRoundTrip and UrlState.ParseBuild:
  the client `Layer` also carries the legacy fields `branch_directions` and
  `branch_style` (`client/lib/api.ts`, lines 26-28), which the recipe
  editor still sets. `encodeLayer` drops both, so they never survive a round
  trip. The modelled layer type leaves them out, and the round trips are
  stated for layers without them.
- Recipe.SpawnPoints: the model states the cases in which a layer spawns
  nothing. The centres of bloom and tower spawns are stated in closed form
  (`Recipe.BloomBuilder`, `Recipe.TowerBuilder`); the centre of an echo
  spawn is stated only through `Recipe.MaterializeOnLattice`.
- Recipe.BlockPoints: its own contract states only the depth-0 case. The
  fractal and solid cases are stated by `Recipe.FractalUnfold`,
  `Recipe.FractalExtent`, `Recipe.FractalWithinSolid` and
  `Grid.FillPointsSpec`, because a contract on the block function itself
  is unfolded wherever a recipe is built and makes those proofs too costly.
- Recipe.FractalCount: this is an upper bound on the cells a fractal block
  inserts. Sub-blocks can overlap, so the count is not stated exactly.
- Grid.Fill: with `clear`, the source pops the visited points one at a
  time, so a missing point raises `KeyError` after the earlier pops have
  already been applied. The model returns `Err` with no grid, and does not
  state the partially emptied grid that the caller would be left with.
- Sector.FillSector: the cells are stated by key and kind, and not by
  overwrite order. The sector builder imports
  `Octoflake/analysis/printing/grid/OctoGrid.py`, whose `insert_cell`
  (line 62) takes no `octo_only` argument, so the call at
  `OctoSectorBuilder.py` line 168 raises `TypeError` against that grid. The
  model runs `fill_sector` against the `insert_cell` of
  `backend/Octoflake/analysis/printing/grid/OctoGrid.py` (lines 97-125)
  instead, and does not model the error.

## Findings

| source | as written | input that shows it | evidently intended | confidence | as-written member | corrected member |
|---|---|---|---|---|---|---|
| Octoflake/analysis/printing/grid/OctoVector.py:66-73 | `__rsub__` returns the componentwise product of the two vectors | `(2, 2, 2) - OctoVector(1, 2, 3)` gives (2, 4, 6) | the difference `other - self`, here (1, 0, -1) | high, not executed | Vector.RSubAsWrittenIsNotSubtraction | Vector.RSub |
| backend/Octoflake/analysis/printing/grid/OctoGrid.py:255-265 | `four_way` swaps x and y about `center_of_rotation`, then calls `reflect_x` and `reflect_y`, which reflect about the origin | a single cell at (4, 0, 0) with centre (4, 0, 0) gives {(4, 0, 0), (-4, 0, 0)}, and the mirror (12, 0, 0) of (-4, 0, 0) about the centre is missing | both reflections about `center_of_rotation`, so that the result is four-way symmetric about it | medium, not executed | Grid.FourWayAsWrittenNotSymmetric | Grid.FourWay |

## Notes on the code

- **Lattice sites.** Not every inserted coordinate is a lattice hub. The
  centre of a depth-0 block and the points of a solid `fill` need not lie
  on the octahedron sublattice; a non-strict insertion still puts an
  octahedron there. The lattice theorem is therefore stated for fractal
  layers of depth 1 or more built from a hub (`Recipe.RecipeOnLattice`).
- **Strict insertion.** Strict mode only validates that the coordinates are
  integers. An integer coordinate off both sublattices inserts nothing,
  without an error (`Grid.InsertCell`).
- **Echo cap.** An echo layer at the cap `_echo_max_depth` spawns nothing;
  no error is raised (`Recipe.SpawnBuilders`).
- **Belt count.** The body belts of `OctoCell.render` number from 2 to 8,
  depending on the weld, clip, sharp and crop flags
  (`OctoCell.BodyKindsSpec`).
- **Two codec copies.** `useUrlSync.ts` carries its own copy of the layer
  codec, and it is identical to `recipe-encoding.ts`. One model serves both.
- **Echo termination.** Termination does not rely on the echo cap: every
  echo lowers the deepest layer by one (`Recipe.EchoLayersMaxDepth`).
