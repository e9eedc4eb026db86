/** Face topology of cell meshes (`GridCell.py`): belts are rings of points and
    the stitching helpers turn consecutive belts into triangles or quads. Points
    are an abstract type: only which point goes where is modelled, not where it is. */
module Mesh {

  datatype Tri<P> = Tri(a: P, b: P, c: P)

  /** `np.flip(face)`: the same triangle with the opposite winding. */
  function Flip<P>(t: Tri<P>): Tri<P>
  {
    Tri(t.c, t.b, t.a)
  }

  function FlipAll<P>(faces: seq<Tri<P>>): (r: seq<Tri<P>>)
    ensures |r| == |faces|
    ensures forall k :: 0 <= k < |faces| ==> r[k] == Flip(faces[k])
  {
    seq(|faces|, k requires 0 <= k < |faces| => Flip(faces[k]))
  }

  /** Python's `belt[k - 1]`: index -1 is the last element. */
  function Prev(k: nat, m: nat): (r: nat)
    requires k < m
    ensures r < m
    ensures (r + 1) % m == k
  {
    if k == 0 then ModSelf(m); m - 1 else ModSmall(k, m); k - 1
  }

  lemma ModSelf(m: nat)
    requires m > 0
    ensures m % m == 0
  {
  }

  lemma ModSmall(k: nat, m: nat)
    requires k < m
    ensures k % m == k
  {
  }

  /** `stitch_belt_to_point`: a fan of four triangles from the first four belt
      points to an apex; a bottom apex reverses every triangle's winding. */
  function StitchBeltToPoint<P>(point: P, belt: seq<P>, isBottom: bool): (r: seq<Tri<P>>)
    requires |belt| >= 4
    ensures |r| == 4
    ensures forall k :: 0 <= k < 4 ==>
      var t := if isBottom then Flip(r[k]) else r[k];
      t.a == belt[k] && t.b == belt[(k + 1) % 4] && t.c == point
  {
    var faces := [Tri(belt[0], belt[1], point), Tri(belt[1], belt[2], point),
                  Tri(belt[2], belt[3], point), Tri(belt[3], belt[0], point)];
    if isBottom then FlipAll(faces) else faces
  }

  /** `stitch_belts`: a band of two triangles per belt position between two belts
      of equal length (the source asserts the lengths agree). */
  function StitchBelts<P>(top: seq<P>, bottom: seq<P>): (r: seq<Tri<P>>)
    requires |top| == |bottom| > 0
    ensures |r| == 2 * |top|
  {
    var m := |top|;
    seq(2 * m, j requires 0 <= j < 2 * m =>
      var i := j / 2;
      if j % 2 == 0 then Tri(bottom[Prev(i, m)], bottom[i], top[Prev(i, m)])
      else Tri(bottom[i], top[i], top[Prev(i, m)]))
  }

  /** `seal_belt`: two triangles covering the quadrilateral belt; the bottom
      seal has the opposite winding. */
  function SealBelt<P>(belt: seq<P>, isBottom: bool): (r: seq<Tri<P>>)
    requires |belt| >= 4
    ensures |r| == 2
    ensures isBottom ==> r == FlipAll(SealBelt(belt, false))
  {
    var faces := [Tri(belt[0], belt[1], belt[2]), Tri(belt[0], belt[2], belt[3])];
    if isBottom then FlipAll(faces) else faces
  }

  /** The quad that `belts_to_trimesh` emits at position `k` between two belts. */
  function Quad<P>(top: seq<P>, bottom: seq<P>, k: nat): seq<P>
    requires |top| == |bottom| && k < |bottom|
  {
    var m := |bottom|;
    [bottom[Prev(k, m)], bottom[k], top[k], top[Prev(k, m)]]
  }

  /** Splitting quad (q0, q1, q2, q3) along its q1-q3 diagonal. */
  function SplitQuad<P>(q: seq<P>): seq<Tri<P>>
    requires |q| == 4
  {
    [Tri(q[0], q[1], q[3]), Tri(q[1], q[2], q[3])]
  }

  /** The triangles of `stitch_belts` are exactly the quads of `belts_to_trimesh`,
      each split along one diagonal: both produce the same band of surface. */
  lemma StitchBeltsSplitsQuads<P>(top: seq<P>, bottom: seq<P>)
    requires |top| == |bottom| > 0
    ensures forall i :: 0 <= i < |top| ==>
      StitchBelts(top, bottom)[2 * i .. 2 * i + 2] == SplitQuad(Quad(top, bottom, i))
  {
    var r := StitchBelts(top, bottom);
    forall i | 0 <= i < |top|
      ensures r[2 * i .. 2 * i + 2] == SplitQuad(Quad(top, bottom, i))
    {
      assert (2 * i) / 2 == i && (2 * i) % 2 == 0;
      assert (2 * i + 1) / 2 == i && (2 * i + 1) % 2 == 1;
    }
  }

  /** The points of a belt stack in reading order (`belts.reshape((-1, 3))`). */
  function Flatten<P(!new)>(belts: seq<seq<P>>): (r: seq<P>)
    ensures forall p :: p in r <==> exists j :: 0 <= j < |belts| && p in belts[j]
  {
    if |belts| == 0 then [] else
      var r := Flatten(belts[..|belts| - 1]) + belts[|belts| - 1];
      assert forall j :: 0 <= j < |belts| - 1 ==> belts[..|belts| - 1][j] == belts[j];
      r
  }

  /** Reference definition of first-seen order: the distinct elements of `s`,
      each kept at its first occurrence. */
  function Dedup<P(==)>(s: seq<P>): seq<P>
  {
    if |s| == 0 then [] else
      var d := Dedup(s[..|s| - 1]);
      if s[|s| - 1] in d then d else d + [s[|s| - 1]]
  }

  predicate Distinct<P(==)>(s: seq<P>)
  {
    forall i, j :: 0 <= i < j < |s| ==> s[i] != s[j]
  }

  /** Position of the first occurrence of `p` in `s`. */
  function FirstIndex<P(==)>(s: seq<P>, p: P): (r: nat)
    requires p in s
    ensures r < |s| && s[r] == p
    ensures forall k :: 0 <= k < r ==> s[k] != p
  {
    if s[0] == p then 0 else 1 + FirstIndex(s[1..], p)
  }

  lemma {:induction false} FirstIndexPrefix<P>(s: seq<P>, n: nat, p: P)
    requires n <= |s| && p in s[..n]
    ensures FirstIndex(s[..n], p) == FirstIndex(s, p)
  {
    var k := FirstIndex(s[..n], p);
    assert s[k] == p;
    var f := FirstIndex(s, p);
    assert f <= k;
    assert s[..n][f] == p;
  }

  /** `Dedup` keeps each distinct element exactly once, and in the order of
      their first occurrences. */
  lemma {:induction false} DedupSpec<P(!new)>(s: seq<P>)
    ensures Distinct(Dedup(s))
    ensures forall p :: p in Dedup(s) <==> p in s
    ensures forall i, j :: 0 <= i < j < |Dedup(s)| ==>
      FirstIndex(s, Dedup(s)[i]) < FirstIndex(s, Dedup(s)[j])
  {
    if |s| > 0 {
      var n := |s| - 1;
      var init := s[..n];
      DedupSpec(init);
      var d := Dedup(init);
      assert s == init + [s[n]];
      forall p | p in init
        ensures FirstIndex(init, p) == FirstIndex(s, p)
      {
        FirstIndexPrefix(s, n, p);
      }
      if s[n] !in d {
        assert s[n] !in init;
        assert FirstIndex(s, s[n]) == n;
      }
    }
  }

  /** The mesh handed to the mesh library: a point list and faces as index lists. */
  datatype Trimesh<P> = Trimesh(points: seq<P>, faces: seq<seq<nat>>)

  /** The point dictionary of `belts_to_trimesh`: walks the points in order and
      gives each point not seen before the next free index. */
  method IndexPoints<P(==,!new)>(flat: seq<P>) returns (points: seq<P>, index: map<P, nat>)
    ensures points == Dedup(flat)
    ensures forall p :: p in index <==> p in flat
    ensures forall p :: p in index ==> index[p] < |points| && points[index[p]] == p
  {
    points := [];
    index := map[];
    var i := 0;
    while i < |flat|
      invariant 0 <= i <= |flat|
      invariant points == Dedup(flat[..i])
      invariant forall p :: p in index <==> p in flat[..i]
      invariant forall p :: p in index ==> index[p] < |points| && points[index[p]] == p
    {
      assert flat[..i + 1][..i] == flat[..i];
      var p := flat[i];
      if p !in index {
        DedupSpec(flat[..i]);
        index := index[p := |points|];
        points := points + [p];
      }
      i := i + 1;
    }
    assert flat[..i] == flat;
  }

  /** All belts have the same, positive, number of points. */
  predicate Rectangular<P>(belts: seq<seq<P>>)
  {
    |belts| > 0 && |belts[0]| > 0 && forall j :: 0 <= j < |belts| ==> |belts[j]| == |belts[0]|
  }

  function Reverse<P>(s: seq<P>): (r: seq<P>)
    ensures |r| == |s|
    ensures forall k :: 0 <= k < |s| ==> r[k] == s[|s| - 1 - k]
  {
    seq(|s|, k requires 0 <= k < |s| => s[|s| - 1 - k])
  }

  /** The faces of `belts_to_trimesh` as point lists: the top belt as a cap, the
      bottom belt reversed as a cap, then one quad per position for each pair of
      adjacent belts. */
  function Polygons<P>(belts: seq<seq<P>>): (r: seq<seq<P>>)
    requires Rectangular(belts)
  {
    var m := |belts[0]|;
    [belts[0], Reverse(belts[|belts| - 1])] +
      seq((|belts| - 1) * m, f requires 0 <= f < (|belts| - 1) * m =>
        var j := f / m;
        assert j < |belts| - 1 by { DivBound(f, m, |belts| - 1); }
        Quad(belts[j], belts[j + 1], f % m))
  }

  lemma DivBound(f: nat, m: nat, n: nat)
    requires m > 0 && f < n * m
    ensures f / m < n
  {
  }

  /** Maps a face's index list back to the points it names. */
  function Resolve<P>(points: seq<P>, face: seq<nat>): seq<P>
    requires forall k :: 0 <= k < |face| ==> face[k] < |points|
  {
    seq(|face|, k requires 0 <= k < |face| => points[face[k]])
  }

  /** There are two caps and one quad per position for each adjacent pair. */
  lemma PolygonsCount<P>(belts: seq<seq<P>>)
    requires Rectangular(belts)
    ensures |Polygons(belts)| == 2 + (|belts| - 1) * |belts[0]|
  {
  }

  /** Every point a polygon names is a point of the belt stack. */
  lemma PolygonPointsInBelts<P(!new)>(belts: seq<seq<P>>)
    requires Rectangular(belts)
    ensures forall f, k :: 0 <= f < |Polygons(belts)| && 0 <= k < |Polygons(belts)[f]| ==>
      Polygons(belts)[f][k] in Flatten(belts)
  {
    var polys := Polygons(belts);
    var m := |belts[0]|;
    forall f, k | 0 <= f < |polys| && 0 <= k < |polys[f]|
      ensures polys[f][k] in Flatten(belts)
    {
      if f >= 2 {
        var j := (f - 2) / m;
        DivBound(f - 2, m, |belts| - 1);
        assert polys[f] == Quad(belts[j], belts[j + 1], (f - 2) % m);
        assert polys[f][k] in belts[j] || polys[f][k] in belts[j + 1];
      } else if f == 1 {
        assert polys[f][k] in belts[|belts| - 1];
      } else {
        assert polys[f][k] in belts[0];
      }
    }
  }

  /** `belts_to_trimesh` before the mesh library's clean-up: every distinct point
      gets one index in first-seen order, and the faces name exactly the cap and
      quad polygons of the belt stack. */
  method BeltsToTrimesh<P(==,!new)>(belts: seq<seq<P>>) returns (mesh: Trimesh<P>)
    requires Rectangular(belts)
    ensures mesh.points == Dedup(Flatten(belts))
    ensures |mesh.faces| == 2 + (|belts| - 1) * |belts[0]|
    ensures forall f :: 0 <= f < |mesh.faces| ==>
      (forall k :: 0 <= k < |mesh.faces[f]| ==> mesh.faces[f][k] < |mesh.points|) &&
      Resolve(mesh.points, mesh.faces[f]) == Polygons(belts)[f]
  {
    var flat := Flatten(belts);
    var points, index := IndexPoints(flat);
    var polys := Polygons(belts);
    PolygonsCount(belts);
    PolygonPointsInBelts(belts);
    var faces := seq(|polys|, f requires 0 <= f < |polys| =>
      seq(|polys[f]|, k requires 0 <= k < |polys[f]| => index[polys[f][k]]));
    mesh := Trimesh(points, faces);
  }
}
