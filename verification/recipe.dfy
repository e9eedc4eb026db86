/** The recipe builder (`RecipeBuilder.py`): layers stacked vertically, each a
    recursive octahedral block, with spawned sub-structures placed around
    them by the spawn, bloom and echo rules. Every insertion the builder makes
    is a default (non-strict) one, so the grid it returns is determined by the
    set of coordinates it inserts (`Grid.MergeFreshGrids`); that set is what
    this module computes. */
module Recipe {
  import opened Wrappers
  import opened Vector
  import opened OctoUtil
  import Grid

  datatype Shape = Fractal | Solid

  /** A spawn option; strings other than "out", "in" and "side" are ignored. */
  datatype SpawnOpt = Out | In | Side | Unrecognised

  /** One layer of a recipe. A missing `spawn` is the empty list, a missing
      `attach_next_at` is `None`. */
  datatype Layer = Layer(depth: nat, shape: Shape, spawn: seq<SpawnOpt>, bloom: bool, echo: bool, attach: Option<nat>)

  /** The depth a layer or preset gets when none is given. */
  const DefaultDepth: nat := 3

  function Plain(depth: nat): Layer
  {
    Layer(depth, Fractal, [], false, false, None)
  }

  // Spawn directions (`_compute_spawn_directions`).

  type Dir = (int, int)

  const AllHoriz: set<Dir> := {(1, 0), (-1, 0), (0, 1), (0, -1)}

  /** "side": the y units when the origin has an x component, else the x units. */
  function Perpendicular(o: Dir): set<Dir>
  {
    if o.0 != 0 then {(0, 1), (0, -1)} else {(1, 0), (-1, 0)}
  }

  function SpawnStep(s: SpawnOpt, o: Dir): set<Dir>
  {
    match s
    case Out => {o}
    case In => {(-o.0, -o.1)}
    case Side => Perpendicular(o)
    case Unrecognised => {}
  }

  /** The loop over the spawn list, one option at a time. */
  function SpawnFold(spawn: seq<SpawnOpt>, o: Dir): (r: set<Dir>)
    ensures forall d :: d in r <==>
      (Out in spawn && d == o) || (In in spawn && d == (-o.0, -o.1)) ||
      (Side in spawn && d in Perpendicular(o))
  {
    if |spawn| == 0 then {}
    else
      assert forall s :: s in spawn <==> s == spawn[0] || s in spawn[1..];
      SpawnStep(spawn[0], o) + SpawnFold(spawn[1..], o)
  }

  /** At the root every horizontal unit for "out" and nothing else; below it,
      "out" continues along the origin, "in" turns back, and "side" takes the
      two perpendicular units. The order of the options plays no part. */
  function SpawnDirections(spawn: seq<SpawnOpt>, origin: Option<Dir>): (r: set<Dir>)
    ensures origin.None? ==> r == (if Out in spawn then AllHoriz else {})
    ensures origin.Some? ==> forall d :: d in r <==>
      (Out in spawn && d == origin.value) ||
      (In in spawn && d == (-origin.value.0, -origin.value.1)) ||
      (Side in spawn && d in Perpendicular(origin.value))
  {
    match origin
    case None => if Out in spawn then AllHoriz else {}
    case Some(o) => SpawnFold(spawn, o)
  }

  /** From a horizontal unit, the "side" directions are the two horizontal
      units at right angles to it. */
  lemma PerpendicularSpec(o: Dir)
    requires o in AllHoriz
    ensures |Perpendicular(o)| == 2
    ensures forall p :: p in Perpendicular(o) ==> p in AllHoriz && o.0 * p.0 + o.1 * p.1 == 0
  {
    assert o.0 == 0 || o.1 == 0;
  }

  /** Spawned sub-structures only ever move along horizontal units, so every
      spawned builder's origin is one again. */
  lemma SpawnDirectionsHorizontal(spawn: seq<SpawnOpt>, origin: Option<Dir>)
    requires origin.None? || origin.value in AllHoriz
    ensures SpawnDirections(spawn, origin) <= AllHoriz
  {
    if origin.Some? {
      PerpendicularSpec(origin.value);
    }
  }

  // One layer's block (`_build_layer_recursive`).

  /** The centre of the `k`-th sub-block, `h` away along E, N, W, S, up or
      down (the order of the source's direction list). */
  function Child(c: Vec, h: int, k: nat): Vec
  {
    if k == 0 then Vec(c.x + h, c.y, c.z)
    else if k == 1 then Vec(c.x, c.y + h, c.z)
    else if k == 2 then Vec(c.x - h, c.y, c.z)
    else if k == 3 then Vec(c.x, c.y - h, c.z)
    else if k == 4 then Vec(c.x, c.y, c.z + h)
    else Vec(c.x, c.y, c.z - h)
  }

  /** The offset of a sub-block: `2 * p2(depth - 1)`. */
  function Step(depth: nat): int
    requires depth >= 1
  {
    2 * Pow2(depth - 1)
  }

  /** The coordinates a block inserts: its centre at depth 0, a `fill` of
      radius `p2(depth+1) - 1` when solid, and otherwise the union of the six
      sub-blocks of depth `depth - 1`. */
  function BlockPoints(depth: nat, shape: Shape, c: Vec): (r: set<Vec>)
    ensures depth == 0 ==> r == {c}
    decreases depth, 7
  {
    if depth == 0 then {c}
    else if shape == Solid then Grid.FillPoints(Pow2(depth + 1) - 1, c)
    else ChildPoints(depth, shape, c, 6)
  }

  /** The union of the first `n` sub-blocks, in the source's order. */
  function ChildPoints(depth: nat, shape: Shape, c: Vec, n: nat): set<Vec>
    requires depth >= 1
    decreases depth, n
  {
    if n == 0 then {}
    else ChildPoints(depth, shape, c, n - 1) + BlockPoints(depth - 1, shape, Child(c, Step(depth), n - 1))
  }

  /** A point is in the first `n` sub-blocks iff it is in one of them. */
  lemma {:induction false} ChildPointsMember(depth: nat, shape: Shape, c: Vec, n: nat, p: Vec)
    requires depth >= 1
    ensures p in ChildPoints(depth, shape, c, n) <==>
      exists k :: 0 <= k < n && p in BlockPoints(depth - 1, shape, Child(c, Step(depth), k))
  {
    if n > 0 {
      ChildPointsMember(depth, shape, c, n - 1, p);
      var last := BlockPoints(depth - 1, shape, Child(c, Step(depth), n - 1));
      assert ChildPoints(depth, shape, c, n) == ChildPoints(depth, shape, c, n - 1) + last;
      if p in ChildPoints(depth, shape, c, n - 1) {
        var k :| 0 <= k < n - 1 && p in BlockPoints(depth - 1, shape, Child(c, Step(depth), k));
        assert 0 <= k < n;
      } else if p in last {
        assert 0 <= n - 1 < n;
      } else {
        forall k | 0 <= k < n
          ensures p !in BlockPoints(depth - 1, shape, Child(c, Step(depth), k))
        {
          if k == n - 1 {
            assert p !in last;
          }
        }
      }
    }
  }

  function SubBlock(depth: nat, c: Vec, k: nat): set<Vec>
    requires depth >= 1
  {
    BlockPoints(depth - 1, Fractal, Child(c, Step(depth), k))
  }

  /** A fractal block is the union of its six sub-blocks. */
  lemma FractalUnfold(depth: nat, c: Vec)
    requires depth >= 1
    ensures BlockPoints(depth, Fractal, c) ==
      SubBlock(depth, c, 0) + SubBlock(depth, c, 1) + SubBlock(depth, c, 2) +
      SubBlock(depth, c, 3) + SubBlock(depth, c, 4) + SubBlock(depth, c, 5)
  {
    assert ChildPoints(depth, Fractal, c, 1) == SubBlock(depth, c, 0);
    assert ChildPoints(depth, Fractal, c, 2) == ChildPoints(depth, Fractal, c, 1) + SubBlock(depth, c, 1);
    assert ChildPoints(depth, Fractal, c, 3) == ChildPoints(depth, Fractal, c, 2) + SubBlock(depth, c, 2);
    assert ChildPoints(depth, Fractal, c, 4) == ChildPoints(depth, Fractal, c, 3) + SubBlock(depth, c, 3);
    assert ChildPoints(depth, Fractal, c, 5) == ChildPoints(depth, Fractal, c, 4) + SubBlock(depth, c, 4);
    assert ChildPoints(depth, Fractal, c, 6) == ChildPoints(depth, Fractal, c, 5) + SubBlock(depth, c, 5);
  }

  /** Every point of a fractal block lies in one of its sub-blocks. */
  lemma FractalMember(depth: nat, c: Vec, p: Vec) returns (k: nat)
    requires depth >= 1 && p in BlockPoints(depth, Fractal, c)
    ensures k < 6 && p in SubBlock(depth, c, k)
  {
    ChildPointsMember(depth, Fractal, c, 6, p);
    k :| 0 <= k < 6 && p in BlockPoints(depth - 1, Fractal, Child(c, Step(depth), k));
  }

  function Pow6(n: nat): nat
  {
    if n == 0 then 1 else 6 * Pow6(n - 1)
  }

  lemma UnionCard<T>(a: set<T>, b: set<T>)
    ensures |a + b| <= |a| + |b|
  {
    assert |a + b| + |a * b| == |a| + |b|;
  }

  /** A fractal block makes at most 6^depth insertions. */
  lemma {:induction false} FractalCount(depth: nat, c: Vec)
    ensures |BlockPoints(depth, Fractal, c)| <= Pow6(depth)
  {
    if depth > 0 {
      forall k | 0 <= k < 6 ensures |SubBlock(depth, c, k)| <= Pow6(depth - 1) {
        FractalCount(depth - 1, Child(c, Step(depth), k));
      }
      FractalUnfold(depth, c);
      var b0, b1, b2 := SubBlock(depth, c, 0), SubBlock(depth, c, 1), SubBlock(depth, c, 2);
      var b3, b4, b5 := SubBlock(depth, c, 3), SubBlock(depth, c, 4), SubBlock(depth, c, 5);
      UnionCard(b0, b1);
      UnionCard(b0 + b1, b2);
      UnionCard(b0 + b1 + b2, b3);
      UnionCard(b0 + b1 + b2 + b3, b4);
      UnionCard(b0 + b1 + b2 + b3 + b4, b5);
    }
  }

  /** Taxicab distance, the metric of `fill`. */
  function Dist(p: Vec, q: Vec): nat
  {
    Grid.Abs(p.x - q.x) + Grid.Abs(p.y - q.y) + Grid.Abs(p.z - q.z)
  }

  lemma DistStep(p: Vec, q: Vec, c: Vec, h: int, bound: int)
    requires Dist(p, q) <= bound
    requires Dist(q, c) == h
    ensures Dist(p, c) <= bound + h
  {
  }

  /** A fractal block reaches at most `p2(depth+1) - 2` from its centre. */
  lemma {:induction false} FractalExtent(depth: nat, c: Vec, p: Vec)
    requires p in BlockPoints(depth, Fractal, c)
    ensures Dist(p, c) <= Pow2(depth + 1) - 2
  {
    if depth > 0 {
      var h := Step(depth);
      assert Pow2(depth) == h && Pow2(depth + 1) == 2 * h;
      var k := FractalMember(depth, c, p);
      var q := Child(c, h, k);
      assert Dist(q, c) == h;
      FractalExtent(depth - 1, q, p);
      DistStep(p, q, c, h, Pow2(depth) - 2);
    }
  }

  /** The solid radius matches the fractal's extent: a fractal block lies
      inside the solid block of the same depth. */
  lemma FractalWithinSolid(depth: nat, c: Vec)
    requires depth >= 1
    ensures BlockPoints(depth, Fractal, c) <= BlockPoints(depth, Solid, c)
  {
    forall p | p in BlockPoints(depth, Fractal, c)
      ensures p in BlockPoints(depth, Solid, c)
    {
      FractalExtent(depth, c, p);
      Grid.FillPointsSpec(Pow2(depth + 1) - 1, c, p);
    }
  }

  /** The centre of a depth-1 flake whose six cells are octahedra: all
      coordinates even and coordinate sum 0 (mod 4). The origin is one. */
  predicate Hub(c: Vec)
  {
    c.x % 2 == 0 && c.y % 2 == 0 && c.z % 2 == 0 && (c.x + c.y + c.z) % 4 == 0
  }

  /** Moving a hub by even offsets whose sum is 0 (mod 4) gives a hub. */
  lemma HubShift(c: Vec, a: int, b: int, e: int)
    requires Hub(c)
    requires a % 2 == 0 && b % 2 == 0 && e % 2 == 0 && (a + b + e) % 4 == 0
    ensures Hub(Vec(c.x + a, c.y + b, c.z + e))
  {
    Grid.Mod2Add(c.x, a);
    Grid.Mod2Add(c.y, b);
    Grid.Mod2Add(c.z, e);
    Grid.Mod4Add(c.x + c.y + c.z, a + b + e);
  }

  /** The six cells two steps from a hub are octahedron sites. */
  lemma HubNeighbour(c: Vec, k: nat)
    requires Hub(c)
    ensures Grid.IsOctoSite(Child(c, 2, k))
  {
    var p := Child(c, 2, k);
    Grid.OctoSiteIff(p);
    var a, b, e := p.x - c.x, p.y - c.y, p.z - c.z;
    assert p == Vec(c.x + a, c.y + b, c.z + e);
    Grid.Mod2Add(c.x, a);
    Grid.Mod2Add(c.y, b);
    Grid.Mod2Add(c.z, e);
    Grid.Mod4Add(c.x + c.y + c.z, a + b + e);
  }

  lemma Mult4(h: int)
    requires h % 4 == 0
    ensures h % 2 == 0 && (-h) % 4 == 0 && (-h) % 2 == 0
  {
    var q := h / 4;
    DivMod2(h, 2 * q, 0);
    DivMod4(-h, -q, 0);
    DivMod2(-h, -2 * q, 0);
  }

  /** A sub-block centre at a multiple of 4 from a hub is a hub. */
  lemma HubChild(c: Vec, h: int, k: nat)
    requires Hub(c) && h % 4 == 0
    ensures Hub(Child(c, h, k))
  {
    Mult4(h);
    if k == 0 { HubShift(c, h, 0, 0); }
    else if k == 1 { HubShift(c, 0, h, 0); }
    else if k == 2 { HubShift(c, -h, 0, 0); }
    else if k == 3 { HubShift(c, 0, -h, 0); }
    else if k == 4 { HubShift(c, 0, 0, h); }
    else { HubShift(c, 0, 0, -h); }
  }

  /** From a hub, every cell of a fractal block of depth 1 or more is an
      octahedron site. */
  lemma {:induction false} FractalOnLattice(depth: nat, c: Vec, p: Vec)
    requires depth >= 1 && Hub(c)
    requires p in BlockPoints(depth, Fractal, c)
    ensures Grid.IsOctoSite(p)
  {
    var h := Step(depth);
    var k := FractalMember(depth, c, p);
    if depth == 1 {
      assert h == 2 && p == Child(c, 2, k);
      HubNeighbour(c, k);
    } else {
      Pow2DivisibleBy4(depth);
      assert h == Pow2(depth);
      HubChild(c, h, k);
      FractalOnLattice(depth - 1, Child(c, h, k), p);
    }
  }

  /** `_build_layer_recursive` on a grid: a default insertion at depth 0, the
      grid `Grid.Fill` returns without `clear` for a solid block, and the six
      sub-blocks one after another otherwise. Whatever the order, the result
      is the grid of default insertions at `BlockPoints`. */
  function BuildLayer(g: Grid.Grid, depth: nat, shape: Shape, c: Vec): (r: Grid.Grid)
    ensures r == Grid.Merge(g, Grid.FreshGrid(BlockPoints(depth, shape, c)))
    decreases depth, 7
  {
    if depth == 0 then
      Grid.DefaultInsertIsFresh(g, c);
      Grid.InsertCell(g, c, false, false, false)
    else if shape == Solid then
      Grid.Merge(g, Grid.FreshGrid(Grid.FillPoints(Pow2(depth + 1) - 1, c)))
    else
      BuildChildren(g, depth, shape, c, 6)
  }

  /** The first `n` sub-blocks of a fractal block, built in order. */
  function BuildChildren(g: Grid.Grid, depth: nat, shape: Shape, c: Vec, n: nat): (r: Grid.Grid)
    requires depth >= 1
    ensures r == Grid.Merge(g, Grid.FreshGrid(ChildPoints(depth, shape, c, n)))
    decreases depth, n
  {
    if n == 0 then
      assert Grid.Merge(g, Grid.FreshGrid({})) == g;
      g
    else
      var g' := BuildChildren(g, depth, shape, c, n - 1);
      var child := Child(c, Step(depth), n - 1);
      MergeFreshStep(g, ChildPoints(depth, shape, c, n - 1), BlockPoints(depth - 1, shape, child));
      BuildLayer(g', depth - 1, shape, child)
  }

  lemma MergeFreshStep(g: Grid.Grid, a: set<Vec>, b: set<Vec>)
    ensures Grid.Merge(Grid.Merge(g, Grid.FreshGrid(a)), Grid.FreshGrid(b)) == Grid.Merge(g, Grid.FreshGrid(a + b))
  {
    Grid.MergeAssociative(g, Grid.FreshGrid(a), Grid.FreshGrid(b));
    Grid.MergeFreshGrids(a, b);
  }

  // The builder (`materialize_additive`, spawn/bloom/echo path).

  /** A builder: its layers, centre, the direction it was spawned along
      (`None` at the root), and its echo nesting level and cap. */
  datatype Builder = Builder(layers: seq<Layer>, center: Vec, origin: Option<Dir>, echoDepth: int, echoMax: int)

  /** `_echo_max_depth`'s default. */
  const EchoMaxDepth := 4

  /** A root builder; `__post_init__` replaces an empty layer list by one
      layer of the default depth. */
  function RootBuilder(layers: seq<Layer>, center: Vec): (b: Builder)
    ensures |b.layers| >= 1 && b.origin.None? && b.echoDepth == 0
    ensures |layers| > 0 ==> b.layers == layers
    ensures |layers| == 0 ==> b.layers == [Plain(DefaultDepth)]
  {
    Builder(if |layers| == 0 then [Plain(DefaultDepth)] else layers, center, None, 0, EchoMaxDepth)
  }

  /** The largest layer depth: the measure that every spawned builder
      decreases. */
  function MaxDepth(ls: seq<Layer>): (r: nat)
    ensures forall k :: 0 <= k < |ls| ==> ls[k].depth <= r
    ensures |ls| > 0 ==> exists k :: 0 <= k < |ls| && ls[k].depth == r
    ensures |ls| == 0 ==> r == 0
  {
    if |ls| == 0 then 0
    else
      var m := MaxDepth(ls[1..]);
      assert forall k :: 1 <= k < |ls| ==> ls[k] == ls[1..][k - 1];
      if ls[0].depth > m then ls[0].depth else m
  }

  /** An echo copy of a layer: one level shallower, and without
      `attach_next_at`, which the copy does not carry over. */
  function Shrink(l: Layer): Layer
    requires l.depth >= 1
  {
    l.(depth := l.depth - 1, attach := None)
  }

  /** The echo recipe: every layer one level shallower, dropping those that
      reach depth 0, in the original order. */
  function EchoLayers(ls: seq<Layer>): (r: seq<Layer>)
    ensures forall l :: l in r <==> exists l' :: l' in ls && l'.depth >= 2 && l == Shrink(l')
    ensures forall k :: 0 <= k < |r| ==> r[k].depth >= 1 && r[k].attach.None?
  {
    if |ls| == 0 then []
    else
      var rest := EchoLayers(ls[1..]);
      assert forall l' :: l' in ls <==> l' == ls[0] || l' in ls[1..];
      if ls[0].depth >= 2 then [Shrink(ls[0])] + rest else rest
  }

  /** Echoing lowers the deepest layer by exactly one, and a recipe with no
      layer deeper than 1 echoes to nothing: this is why echoes end even
      without the echo cap. */
  lemma {:induction false} EchoLayersMaxDepth(ls: seq<Layer>)
    ensures MaxDepth(ls) >= 2 ==> MaxDepth(EchoLayers(ls)) == MaxDepth(ls) - 1
    ensures MaxDepth(ls) < 2 ==> EchoLayers(ls) == []
  {
    if |ls| > 0 {
      var tl := ls[1..];
      EchoLayersMaxDepth(tl);
      assert MaxDepth(ls) == if ls[0].depth > MaxDepth(tl) then ls[0].depth else MaxDepth(tl);
      if ls[0].depth >= 2 {
        assert EchoLayers(ls) == [Shrink(ls[0])] + EchoLayers(tl);
        assert ([Shrink(ls[0])] + EchoLayers(tl))[1..] == EchoLayers(tl);
      } else {
        assert EchoLayers(ls) == EchoLayers(tl);
      }
    }
  }

  /** An echo spawn: the whole recipe one level shallower, `p2(i+1)` out
      along the direction at the builder's own height, one echo level down. */
  function EchoBuilder(b: Builder, i: nat, d: Dir): (r: Builder)
    ensures r.echoDepth == b.echoDepth + 1 && r.echoMax == b.echoMax
    ensures r.origin == Some(d)
  {
    var h := Pow2(i + 1);
    Builder(EchoLayers(b.layers), Vec(b.center.x + h * d.0, b.center.y + h * d.1, b.center.z), Some(d), b.echoDepth + 1, b.echoMax)
  }

  /** The layers of a bloom spawn: depths `i-1` down to 1, each but the last
      spawning again with the same options and blooming. */
  function BloomLayers(i: nat, spawn: seq<SpawnOpt>): (r: seq<Layer>)
    ensures |r| == if i >= 1 then i - 1 else 0
    ensures forall k :: 0 <= k < |r| ==>
      r[k].depth == i - 1 - k && r[k].shape == Fractal && r[k].attach.None? && !r[k].echo &&
      (r[k].bloom <==> r[k].depth > 1) && r[k].spawn == (if r[k].depth > 1 then spawn else [])
  {
    var n := if i >= 1 then i - 1 else 0;
    seq(n, k requires 0 <= k < n =>
      var d := i - 1 - k;
      if d > 1 then Layer(d, Fractal, spawn, true, false, None) else Plain(d))
  }

  /** A bloom spawn: `p2(i+1)` out along the direction, at the top of this
      layer dropped by `p2(i)`. */
  function BloomBuilder(b: Builder, layer: Layer, z: int, d: Dir): (r: Builder)
    ensures r.origin == Some(d) && r.echoDepth == 0 && r.echoMax == EchoMaxDepth
    ensures var h := Pow2(layer.depth + 1);
      r.center == Vec(b.center.x + h * d.0, b.center.y + h * d.1, b.center.z + z + Pow2(layer.depth))
    ensures layer.depth >= 2 ==> MaxDepth(r.layers) < layer.depth
  {
    var i := layer.depth;
    assert i >= 2 ==> MaxDepth(BloomLayers(i, layer.spawn)) < i by {
      if i >= 2 { BloomLayersMaxDepth(i, layer.spawn); }
    }
    var h := Pow2(i + 1);
    var sz := z + Pow2(i + 1) - Pow2(i);
    Builder(BloomLayers(i, layer.spawn), Vec(b.center.x + h * d.0, b.center.y + h * d.1, b.center.z + sz), Some(d), 0, EchoMaxDepth)
  }

  /** The layers of a plain spawned tower: depths `i-1` down to 1. */
  function TowerLayers(i: nat): (r: seq<Layer>)
    ensures |r| == if i >= 1 then i - 1 else 0
    ensures forall k :: 0 <= k < |r| ==> r[k] == Plain(i - 1 - k)
  {
    var n := if i >= 1 then i - 1 else 0;
    seq(n, k requires 0 <= k < n => Plain(i - 1 - k))
  }

  /** A plain spawn (neither bloom nor echo): `f_rad(i) - f_rad(i-2)` out along
      the direction, raised by `f_rad(i-2)` from this layer's height. */
  function TowerBuilder(b: Builder, layer: Layer, z: int, d: Dir): (r: Builder)
    requires layer.depth >= 2
    ensures r.origin == Some(d) && r.echoDepth == 0 && r.echoMax == EchoMaxDepth
    ensures var h, q := 3 * Pow2(layer.depth - 1), Pow2(layer.depth - 1);
      r.center == Vec(b.center.x + h * d.0, b.center.y + h * d.1, b.center.z + z + q)
    ensures MaxDepth(r.layers) < layer.depth
  {
    var i := layer.depth;
    FRadSpawnOffset(i);
    assert FRad([i - 2]) == Pow2(i - 1) + FRad([]);
    TowerLayersMaxDepth(i);
    var h := FRad([i]) - FRad([i - 2]);
    var sz := z + FRad([i - 2]);
    Builder(TowerLayers(i), Vec(b.center.x + h * d.0, b.center.y + h * d.1, b.center.z + sz), Some(d), 0, EchoMaxDepth)
  }

  /** The z of a layer's centre, from the running `current_z` and the layer
      before it: `attach_next_at` on the previous layer places this one
      `p2(attach + 1)` above that layer's centre. */
  function LayerZ(prev: Option<Layer>, currentZ: int): int
  {
    match prev
    case None => currentZ
    case Some(p) =>
      match p.attach
      case None => currentZ
      case Some(a) => currentZ - Pow2(p.depth + 1) + Pow2(a + 1)
  }

  /** Everything a builder inserts. */
  function Materialize(b: Builder): (r: set<Vec>)
    ensures |b.layers| == 0 ==> r == {}
    ensures |b.layers| > 0 ==> LayerCells(b, b.layers[0], 0) <= r
    decreases MaxDepth(b.layers), 2, 0
  {
    LayersFrom(b, 0, LayerZ(None, 0))
  }

  /** The layer loop from layer `k` on, with `z` the height of layer `k`'s
      centre. After a layer the running `current_z` is its centre plus its
      height `p2(depth + 1)`, and the next layer's centre follows from that
      and the layer just built. */
  function LayersFrom(b: Builder, k: nat, z: int): set<Vec>
    requires k <= |b.layers|
    decreases MaxDepth(b.layers), 1, |b.layers| - k
  {
    if k == |b.layers| then {}
    else
      var layer := b.layers[k];
      LayerCells(b, layer, z) + LayersFrom(b, k + 1, NextZ(layer, z))
  }

  /** Everything one layer inserts: its block and its spawns. */
  function LayerCells(b: Builder, layer: Layer, z: int): set<Vec>
    requires layer.depth <= MaxDepth(b.layers)
    decreases MaxDepth(b.layers), 0, 1
  {
    LayerBlock(b, layer, z) + SpawnPoints(b, layer, z)
  }

  /** A layer's block, at height `z` above the builder's centre. */
  function LayerBlock(b: Builder, layer: Layer, z: int): set<Vec>
  {
    BlockPoints(layer.depth, layer.shape, Vec(b.center.x, b.center.y, b.center.z + z))
  }

  /** The builders a layer spawns. They need a non-empty spawn list and depth
      2 or more; an echo layer spawns copies of the whole recipe while the
      echo level is below its cap, a bloom layer spawns blooming towers, and
      any other layer plain towers. Every one is shallower than its parent. */
  function SpawnBuilders(b: Builder, layer: Layer, z: int): (r: set<Builder>)
    requires layer.depth <= MaxDepth(b.layers)
    ensures forall c :: c in r ==> MaxDepth(c.layers) < MaxDepth(b.layers)
    ensures |layer.spawn| == 0 || layer.depth < 2 ==> r == {}
    ensures layer.echo && b.echoDepth >= b.echoMax ==> r == {}
  {
    var i := layer.depth;
    if |layer.spawn| == 0 || i < 2 then {}
    else
      var dirs := SpawnDirections(layer.spawn, b.origin);
      if layer.echo then
        if b.echoDepth < b.echoMax then
          EchoLayersMaxDepth(b.layers);
          set d | d in dirs :: EchoBuilder(b, i, d)
        else {}
      else if layer.bloom then
        BloomLayersMaxDepth(i, layer.spawn);
        set d | d in dirs :: BloomBuilder(b, layer, z, d)
      else
        TowerLayersMaxDepth(i);
        set d | d in dirs :: TowerBuilder(b, layer, z, d)
  }

  lemma BloomLayersMaxDepth(i: nat, spawn: seq<SpawnOpt>)
    requires i >= 2
    ensures MaxDepth(BloomLayers(i, spawn)) < i
  {
    var ls := BloomLayers(i, spawn);
    var k :| 0 <= k < |ls| && ls[k].depth == MaxDepth(ls);
  }

  lemma TowerLayersMaxDepth(i: nat)
    requires i >= 2
    ensures MaxDepth(TowerLayers(i)) < i
  {
    var ls := TowerLayers(i);
    var k :| 0 <= k < |ls| && ls[k].depth == MaxDepth(ls);
  }

  /** A layer's spawns: everything its spawned builders insert. */
  function SpawnPoints(b: Builder, layer: Layer, z: int): (r: set<Vec>)
    requires layer.depth <= MaxDepth(b.layers)
    ensures |layer.spawn| == 0 || layer.depth < 2 ==> r == {}
    ensures layer.echo && b.echoDepth >= b.echoMax ==> r == {}
    decreases MaxDepth(b.layers), 0, 0
  {
    set c, p | c in SpawnBuilders(b, layer, z) && p in Materialize(c) :: p
  }

  // Where the layers go.

  /** How far a layer lifts the next one: `p2(attach + 1)` when it has
      `attach_next_at`, otherwise its full height `p2(depth + 1)`. */
  function Rise(l: Layer): nat
  {
    match l.attach
    case Some(a) => Pow2(a + 1)
    case None => Pow2(l.depth + 1)
  }

  /** The z of layer `k`'s centre, above the builder's centre, as a sum of
      the rises of the layers below it. */
  function LayerCentreZ(ls: seq<Layer>, k: nat): int
    requires k <= |ls|
  {
    if k == 0 then 0 else LayerCentreZ(ls, k - 1) + Rise(ls[k - 1])
  }

  /** `p` is among the cells of layer `j`, built at its centre height: in
      its block or among its spawns. */
  predicate InLayer(b: Builder, j: int, p: Vec)
  {
    0 <= j < |b.layers| &&
    (p in LayerBlock(b, b.layers[j], LayerCentreZ(b.layers, j)) ||
     p in SpawnPoints(b, b.layers[j], LayerCentreZ(b.layers, j)))
  }

  /** The centre height of the layer after `layer`, whose centre is at `z`. */
  function NextZ(layer: Layer, z: int): int
  {
    LayerZ(Some(layer), z + Pow2(layer.depth + 1))
  }

  /** One turn of the layer loop, with layer `k` at its centre height. */
  lemma LayersFromStep(b: Builder, k: nat, z: int, p: Vec)
    requires k < |b.layers| && z == LayerCentreZ(b.layers, k)
    ensures p in LayersFrom(b, k, z) <==> InLayer(b, k, p) || p in LayersFrom(b, k + 1, NextZ(b.layers[k], z))
  {
  }

  /** The loop puts layer `k` at `LayerCentreZ`: the points from layer `k`
      on are the union over those layers of each layer's block and spawns at
      that height. */
  lemma {:induction false} LayersFromUnion(b: Builder, k: nat, z: int, p: Vec)
    requires k <= |b.layers| && z == LayerCentreZ(b.layers, k)
    ensures p in LayersFrom(b, k, z) <==> exists j :: k <= j && InLayer(b, j, p)
    decreases |b.layers| - k
  {
    if k < |b.layers| {
      var next := NextZ(b.layers[k], z);
      assert next == LayerCentreZ(b.layers, k + 1);
      LayersFromUnion(b, k + 1, next, p);
      LayersFromStep(b, k, z, p);
      if p in LayersFrom(b, k, z) && !InLayer(b, k, p) {
        var j :| k + 1 <= j && InLayer(b, j, p);
        assert k <= j;
      }
      if exists j :: k <= j && InLayer(b, j, p) {
        var j :| k <= j && InLayer(b, j, p);
        assert j == k || k + 1 <= j;
      }
    }
  }

  /** A builder's points are the union over its layers of each layer's
      cells at its centre height. */
  lemma MaterializeUnion(b: Builder, p: Vec)
    ensures p in Materialize(b) <==> exists j :: InLayer(b, j, p)
  {
    LayersFromUnion(b, 0, LayerZ(None, 0), p);
  }

  /** Each layer's centre is strictly above every earlier one. */
  lemma {:induction false} LayersRise(ls: seq<Layer>, j: nat, k: nat)
    requires j < k <= |ls|
    ensures LayerCentreZ(ls, j) < LayerCentreZ(ls, k)
    decreases k
  {
    if j < k - 1 {
      LayersRise(ls, j, k - 1);
    }
  }

  /** In a stack without `attach_next_at` whose depths run down by one from
      `d` (a tower), layer `k` sits at `p2(d+2) - p2(d+2-k)`. */
  lemma {:induction false} TowerCentreZ(ls: seq<Layer>, d: nat, k: nat)
    requires k <= |ls| && |ls| <= d + 1
    requires forall j :: 0 <= j < |ls| ==> ls[j].depth == d - j && ls[j].attach.None?
    ensures LayerCentreZ(ls, k) == Pow2(d + 2) - Pow2(d + 2 - k)
  {
    if k > 0 {
      TowerCentreZ(ls, d, k - 1);
      assert Rise(ls[k - 1]) == Pow2(d + 2 - k);
      assert Pow2(d + 2 - (k - 1)) == 2 * Pow2(d + 2 - k);
    }
  }

  // Every cell of a fractal recipe is an octahedron site.

  predicate LatticeLayer(l: Layer)
  {
    l.depth >= 1 && l.shape == Fractal && (l.attach.None? || l.attach.value >= 1)
  }

  predicate LatticeLayers(ls: seq<Layer>)
  {
    forall k :: 0 <= k < |ls| ==> LatticeLayer(ls[k])
  }

  /** A builder whose cells all land on octahedron sites: centred at a hub,
      spawned (if at all) along a horizontal unit, and made of fractal layers
      of depth 1 or more whose attach points are 1 or more. */
  predicate OnLattice(b: Builder)
  {
    Hub(b.center) && (b.origin.None? || b.origin.value in AllHoriz) && LatticeLayers(b.layers)
  }

  lemma Mult4Sum(a: int, b: int)
    requires a % 4 == 0 && b % 4 == 0
    ensures (a + b) % 4 == 0 && (a - b) % 4 == 0 && a % 2 == 0
  {
    var qa, qb := a / 4, b / 4;
    DivMod4(a + b, qa + qb, 0);
    DivMod4(a - b, qa - qb, 0);
    DivMod2(a, 2 * qa, 0);
  }

  /** A spawn along a horizontal unit by `h`, rising `e`, keeps a hub a hub
      when `e + h` and `e - h` are both multiples of 4. */
  lemma SpawnShiftHub(c: Vec, d: Dir, h: int, e: int)
    requires Hub(c) && d in AllHoriz
    requires h % 2 == 0 && e % 2 == 0 && (e + h) % 4 == 0 && (e - h) % 4 == 0
    ensures Hub(Vec(c.x + h * d.0, c.y + h * d.1, c.z + e))
  {
    var q := h / 2;
    assert h == 2 * q && -h == 2 * (-q);
    if d == (1, 0) {
      assert h * d.0 == h && h * d.1 == 0;
      HubShift(c, h, 0, e);
    } else if d == (-1, 0) {
      assert h * d.0 == -h && h * d.1 == 0;
      HubShift(c, -h, 0, e);
    } else if d == (0, 1) {
      assert h * d.0 == 0 && h * d.1 == h;
      HubShift(c, 0, h, e);
    } else {
      assert h * d.0 == 0 && h * d.1 == -h;
      HubShift(c, 0, -h, e);
    }
  }

  lemma EchoOnLattice(b: Builder, i: nat, d: Dir)
    requires OnLattice(b) && i >= 2 && d in AllHoriz
    ensures OnLattice(EchoBuilder(b, i, d))
  {
    Pow2DivisibleBy4(i + 1);
    Mult4Sum(Pow2(i + 1), 0);
    SpawnShiftHub(b.center, d, Pow2(i + 1), 0);
    var r := EchoLayers(b.layers);
    forall k | 0 <= k < |r| ensures LatticeLayer(r[k]) {
      assert r[k] in r;
      var l' :| l' in b.layers && l'.depth >= 2 && r[k] == Shrink(l');
      var j :| 0 <= j < |b.layers| && b.layers[j] == l';
      assert LatticeLayer(b.layers[j]);
    }
  }

  lemma BloomOnLattice(b: Builder, layer: Layer, z: int, d: Dir)
    requires OnLattice(b) && layer.depth >= 2 && z % 4 == 0 && d in AllHoriz
    ensures OnLattice(BloomBuilder(b, layer, z, d))
  {
    var i := layer.depth;
    Pow2DivisibleBy4(i + 1);
    Pow2DivisibleBy4(i);
    var e := z + Pow2(i + 1) - Pow2(i);
    Mult4Sum(z, Pow2(i));
    Mult4Sum(z - Pow2(i), Pow2(i + 1));
    Mult4Sum(e, Pow2(i + 1));
    SpawnShiftHub(b.center, d, Pow2(i + 1), e);
  }

  lemma TowerOnLattice(b: Builder, layer: Layer, z: int, d: Dir)
    requires OnLattice(b) && layer.depth >= 2 && z % 4 == 0 && d in AllHoriz
    ensures OnLattice(TowerBuilder(b, layer, z, d))
  {
    var i := layer.depth;
    var q := Pow2(i - 2);
    FRadSpawnOffset(i);
    assert FRad([i - 2]) == Pow2(i - 1) + FRad([]);
    assert Pow2(i - 1) == 2 * q;
    TowerShiftMod(z, q);
    SpawnShiftHub(b.center, d, 6 * q, z + 2 * q);
  }

  /** The plain-spawn shift `(3 * p2(i-1), p2(i-1))` with `p2(i-1) = 2q`. */
  lemma TowerShiftMod(z: int, q: int)
    requires z % 4 == 0
    ensures (6 * q) % 2 == 0 && (z + 2 * q) % 2 == 0
    ensures (z + 2 * q + 6 * q) % 4 == 0 && (z + 2 * q - 6 * q) % 4 == 0
  {
    var m := z / 4;
    DivMod2(6 * q, 3 * q, 0);
    DivMod2(z + 2 * q, 2 * m + q, 0);
    DivMod4(z + 2 * q + 6 * q, m + 2 * q, 0);
    DivMod4(z + 2 * q - 6 * q, m - q, 0);
  }

  /** Every cell a builder on the lattice inserts is an octahedron site. */
  lemma MaterializeOnLattice(b: Builder, p: Vec)
    requires OnLattice(b) && p in Materialize(b)
    ensures Grid.IsOctoSite(p)
    decreases MaxDepth(b.layers), 2, 0
  {
    MaterializeUnion(b, p);
    var j :| InLayer(b, j, p);
    LayerOnLattice(b, j, p);
  }

  /** Each layer of a builder on the lattice sits at a multiple of 4. */
  lemma {:induction false} CentreZOnLattice(ls: seq<Layer>, j: nat)
    requires LatticeLayers(ls) && j <= |ls|
    ensures LayerCentreZ(ls, j) % 4 == 0
  {
    if j > 0 {
      CentreZOnLattice(ls, j - 1);
      var l := ls[j - 1];
      if l.attach.Some? {
        Pow2DivisibleBy4(l.attach.value + 1);
      } else {
        Pow2DivisibleBy4(l.depth + 1);
      }
      Mult4Sum(LayerCentreZ(ls, j - 1), Rise(l));
    }
  }

  lemma LayerOnLattice(b: Builder, j: int, p: Vec)
    requires OnLattice(b) && InLayer(b, j, p)
    ensures Grid.IsOctoSite(p)
    decreases MaxDepth(b.layers), 1, 0
  {
    var layer, z := b.layers[j], LayerCentreZ(b.layers, j);
    assert LatticeLayer(layer) && layer.depth <= MaxDepth(b.layers);
    CentreZOnLattice(b.layers, j);
    if p in SpawnPoints(b, layer, z) {
      SpawnPointsOnLattice(b, layer, z, p);
    } else {
      BlockOnLattice(b.center, layer, z, p);
    }
  }

  lemma BlockOnLattice(center: Vec, layer: Layer, z: int, p: Vec)
    requires Hub(center) && LatticeLayer(layer) && z % 4 == 0
    requires p in BlockPoints(layer.depth, layer.shape, Vec(center.x, center.y, center.z + z))
    ensures Grid.IsOctoSite(p)
  {
    RaisedHub(center, z);
    FractalOnLattice(layer.depth, Vec(center.x, center.y, center.z + z), p);
  }

  lemma RaisedHub(c: Vec, z: int)
    requires Hub(c) && z % 4 == 0
    ensures Hub(Vec(c.x, c.y, c.z + z))
  {
    Mult4Sum(z, 0);
    HubShift(c, 0, 0, z);
  }

  lemma SpawnPointsOnLattice(b: Builder, layer: Layer, z: int, p: Vec)
    requires OnLattice(b) && LatticeLayer(layer) && layer.depth <= MaxDepth(b.layers) && z % 4 == 0
    requires p in SpawnPoints(b, layer, z)
    ensures Grid.IsOctoSite(p)
    decreases MaxDepth(b.layers), 0, 0
  {
    var i := layer.depth;
    var dirs := SpawnDirections(layer.spawn, b.origin);
    SpawnDirectionsHorizontal(layer.spawn, b.origin);
    var c :| c in SpawnBuilders(b, layer, z) && p in Materialize(c);
    if layer.echo {
      var d :| d in dirs && c == EchoBuilder(b, i, d);
      EchoOnLattice(b, i, d);
    } else if layer.bloom {
      var d :| d in dirs && c == BloomBuilder(b, layer, z, d);
      BloomOnLattice(b, layer, z, d);
    } else {
      var d :| d in dirs && c == TowerBuilder(b, layer, z, d);
      TowerOnLattice(b, layer, z, d);
    }
    MaterializeOnLattice(c, p);
  }

  /** A recipe of fractal layers of depth 1 or more (and attach points 1 or
      more) built at a hub, such as the origin, puts every cell on an
      octahedron site; so does the default recipe. */
  lemma RecipeOnLattice(layers: seq<Layer>, center: Vec, p: Vec)
    requires Hub(center) && LatticeLayers(layers)
    requires p in Materialize(RootBuilder(layers, center))
    ensures Grid.IsOctoSite(p)
  {
    MaterializeOnLattice(RootBuilder(layers, center), p);
  }

  // Presets (`get_preset_recipe`).

  datatype Preset = Flake | Tower | EvilTower | Flower | TempleComplex

  function PresetName(p: Preset): string
  {
    match p
    case Flake => "flake"
    case Tower => "tower"
    case EvilTower => "evil_tower"
    case Flower => "flower"
    case TempleComplex => "temple_complex"
  }

  /** No two presets share a name: the names differ in length or in their
      first letter. */
  lemma PresetNamesDistinct()
    ensures forall p, q :: PresetName(p) == PresetName(q) ==> p == q
  {
    forall p, q | PresetName(p) == PresetName(q) ensures p == q {
      var a, b := PresetName(p), PresetName(q);
      assert |a| == |b| && a[0] == b[0];
    }
  }

  /** The preset a name selects; any name that is not a preset's selects the
      flake. */
  function PresetNamed(name: string): (r: Preset)
    ensures forall p :: name == PresetName(p) ==> r == p
    ensures (forall p :: name != PresetName(p)) ==> r == Flake
  {
    PresetNamesDistinct();
    assert PresetName(Tower) == "tower" && PresetName(EvilTower) == "evil_tower";
    assert PresetName(Flower) == "flower" && PresetName(TempleComplex) == "temple_complex";
    if name == "tower" then Tower
    else if name == "evil_tower" then EvilTower
    else if name == "flower" then Flower
    else if name == "temple_complex" then TempleComplex
    else Flake
  }

  /** The smallest layer depth of a stacked preset: `depth - stack_height`
      (one lower for the flower), but never below 1. */
  function MinDepth(p: Preset, depth: nat, stack: int): (r: int)
    ensures r >= 1
  {
    var m := if p == Flower then depth - stack - 1 else depth - stack;
    if m < 1 then 1 else m
  }

  /** The layer of depth `d` at position `k` of a stacked preset whose
      smallest depth is `m`. */
  function PresetLayer(p: Preset, d: nat, m: int, k: nat): (l: Layer)
    ensures l.depth == d && l.shape == Fractal && l.attach.None?
    ensures |l.spawn| > 0 <==> d > m && (p == EvilTower || p == Flower || p == TempleComplex)
    ensures l.bloom <==> d > m && p == Flower
    ensures l.echo <==> d > m && p == TempleComplex && k == 0
  {
    if d <= m then Plain(d)
    else
      match p
      case EvilTower => Layer(d, Fractal, [Out, In, Side], false, false, None)
      case Flower => Layer(d, Fractal, [Out, Side], true, false, None)
      case TempleComplex => Layer(d, Fractal, [Out, In, Side], false, k == 0, None)
      case _ => Plain(d)
  }

  /** `get_preset_recipe`'s layers. A flake is one layer of the given depth;
      every other preset runs down one depth at a time from `depth` to its
      `MinDepth`, with spawns on all but the smallest layer (none for the
      tower), blooming for the flower, and echoing on the first layer only
      for the temple complex. */
  function PresetLayers(p: Preset, depth: nat, stack: int): (r: seq<Layer>)
    ensures p == Flake ==> r == [Plain(depth)]
    ensures p != Flake ==> |r| == if depth >= MinDepth(p, depth, stack) then depth - MinDepth(p, depth, stack) + 1 else 0
    ensures forall k :: 0 <= k < |r| ==>
      r[k].depth == depth - k && r[k].shape == Fractal && r[k].attach.None?
    ensures p != Flake && |r| > 0 ==> r[|r| - 1].depth == MinDepth(p, depth, stack)
    ensures forall k :: 0 <= k < |r| ==>
      (|r[k].spawn| > 0 <==> (p == EvilTower || p == Flower || p == TempleComplex) && k < |r| - 1)
    ensures forall k :: 0 <= k < |r| ==> (r[k].bloom <==> p == Flower && k < |r| - 1)
    ensures forall k :: 0 <= k < |r| ==> (r[k].echo <==> p == TempleComplex && k == 0 && |r| > 1)
  {
    if p == Flake then [Plain(depth)]
    else
      var m := MinDepth(p, depth, stack);
      var n := if depth >= m then depth - m + 1 else 0;
      var r := seq(n, k requires 0 <= k < n => PresetLayer(p, depth - k, m, k));
      assert forall k :: 0 <= k < n ==> r[k] == PresetLayer(p, depth - k, m, k);
      r
  }

  /** The depths of a preset's layers fall strictly from bottom to top. */
  lemma PresetDepthsDecrease(p: Preset, depth: nat, stack: int, j: nat, k: nat)
    requires j < k < |PresetLayers(p, depth, stack)|
    ensures PresetLayers(p, depth, stack)[j].depth > PresetLayers(p, depth, stack)[k].depth
  {
  }

  /** The `PRESET_RECIPES` table is what `get_preset_recipe` gives for the
      flake at depth 3, the tower and the evil tower at depth 3 with a stack
      of 2, the flower at depth 4 with a stack of 2, and the temple complex at
      depth 4 with a stack of 3. */
  lemma PresetTableAgrees()
    ensures PresetLayers(Flake, 3, 1) == [Plain(3)]
    ensures PresetLayers(Tower, 3, 2) == [Plain(3), Plain(2), Plain(1)]
    ensures PresetLayers(EvilTower, 3, 2) ==
      [Layer(3, Fractal, [Out, In, Side], false, false, None),
       Layer(2, Fractal, [Out, In, Side], false, false, None), Plain(1)]
    ensures PresetLayers(Flower, 4, 2) ==
      [Layer(4, Fractal, [Out, Side], true, false, None),
       Layer(3, Fractal, [Out, Side], true, false, None),
       Layer(2, Fractal, [Out, Side], true, false, None), Plain(1)]
    ensures PresetLayers(TempleComplex, 4, 3) ==
      [Layer(4, Fractal, [Out, In, Side], false, true, None),
       Layer(3, Fractal, [Out, In, Side], false, false, None),
       Layer(2, Fractal, [Out, In, Side], false, false, None), Plain(1)]
  {
    PresetTower();
    PresetEvilTower();
    PresetFlower();
    PresetTemple();
  }

  lemma PresetTower()
    ensures PresetLayers(Tower, 3, 2) == [Plain(3), Plain(2), Plain(1)]
  {
    var t := PresetLayers(Tower, 3, 2);
    assert |t| == 3 && t[0] == Plain(3) && t[1] == Plain(2) && t[2] == Plain(1);
  }

  lemma PresetEvilTower()
    ensures PresetLayers(EvilTower, 3, 2) ==
      [Layer(3, Fractal, [Out, In, Side], false, false, None),
       Layer(2, Fractal, [Out, In, Side], false, false, None), Plain(1)]
  {
    var e := PresetLayers(EvilTower, 3, 2);
    assert |e| == 3 && e[2] == Plain(1);
  }

  lemma PresetFlower()
    ensures PresetLayers(Flower, 4, 2) ==
      [Layer(4, Fractal, [Out, Side], true, false, None),
       Layer(3, Fractal, [Out, Side], true, false, None),
       Layer(2, Fractal, [Out, Side], true, false, None), Plain(1)]
  {
    var f := PresetLayers(Flower, 4, 2);
    assert |f| == 4 && f[3] == Plain(1);
  }

  lemma PresetTemple()
    ensures PresetLayers(TempleComplex, 4, 3) ==
      [Layer(4, Fractal, [Out, In, Side], false, true, None),
       Layer(3, Fractal, [Out, In, Side], false, false, None),
       Layer(2, Fractal, [Out, In, Side], false, false, None), Plain(1)]
  {
    var c := PresetLayers(TempleComplex, 4, 3);
    assert |c| == 4 && c[3] == Plain(1);
  }

  /** Every preset of depth 1 or more, built at a hub, puts every cell on an
      octahedron site. A stacked preset whose depth is below its `MinDepth`
      has no layers and is built as the default recipe. */
  lemma PresetOnLattice(p: Preset, depth: nat, stack: int, center: Vec, pt: Vec)
    requires depth >= 1 && Hub(center)
    requires pt in Materialize(RootBuilder(PresetLayers(p, depth, stack), center))
    ensures Grid.IsOctoSite(pt)
  {
    var ls := PresetLayers(p, depth, stack);
    assert LatticeLayers(ls);
    RecipeOnLattice(ls, center, pt);
  }
}
