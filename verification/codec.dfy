/** The compact recipe encoding of the web client (`recipe-encoding.ts`, and
    the identical copy in `useUrlSync.ts`): a layer is written
    `{depth}{shape}[.{spawns}][.{flags}]`, and layers are joined by `-`. */
module Codec {
  import opened Wrappers
  import opened Text
  import Recipe

  /** The client's spawn directions; its type admits no other value. */
  datatype Spawn = Out | In | Side

  /** A layer as the client holds it: absent optional fields are `None`. */
  datatype ClientLayer = ClientLayer(depth: int, shape: Option<Recipe.Shape>, spawn: Option<seq<Spawn>>,
                                     bloom: Option<bool>, echo: Option<bool>)

  /** `SHAPE_CODES`. */
  function ShapeCode(s: Recipe.Shape): char
  {
    match s
    case Fractal => 'f'
    case Solid => 's'
  }

  /** `SPAWN_CODES`: side is `d`, so that it cannot be read as the solid shape. */
  function SpawnCode(s: Spawn): char
  {
    match s
    case Out => 'o'
    case In => 'i'
    case Side => 'd'
  }

  /** `SPAWN_DECODE`: any other character decodes to nothing. */
  function DecodeSpawn(ch: char): Option<Spawn>
  {
    if ch == 'o' then Some(Out)
    else if ch == 'i' then Some(In)
    else if ch == 'd' then Some(Side)
    else None
  }

  /** The spawn tables are inverse: a character decodes to a spawn exactly
      when it is that spawn's code. */
  lemma SpawnCodeInverse(s: Spawn, ch: char)
    ensures DecodeSpawn(ch) == Some(s) <==> SpawnCode(s) == ch
  {
  }

  /** `layer.spawn.map(s => SPAWN_CODES[s])`, joined. */
  function Codes(ss: seq<Spawn>): (r: string)
    ensures |r| == |ss| && forall k :: 0 <= k < |ss| ==> r[k] == SpawnCode(ss[k])
  {
    if |ss| == 0 then ""
    else
      assert forall k :: 1 <= k < |ss| ==> ss[1..][k - 1] == ss[k];
      [SpawnCode(ss[0])] + Codes(ss[1..])
  }

  predicate Sorted(s: string)
  {
    forall i, j :: 0 <= i < j < |s| ==> s[i] <= s[j]
  }

  /** Inserting a character into a sorted string at its place. */
  function Insert(ch: char, s: string): (r: string)
    ensures |r| == |s| + 1
    ensures multiset(r) == multiset(s) + multiset{ch}
  {
    if |s| == 0 || ch <= s[0] then [ch] + s
    else
      assert s == [s[0]] + s[1..];
      [s[0]] + Insert(ch, s[1..])
  }

  lemma {:induction false} InsertSorted(ch: char, s: string)
    requires Sorted(s)
    ensures Sorted(Insert(ch, s))
  {
    if |s| > 0 && ch > s[0] {
      var t := Insert(ch, s[1..]);
      InsertSorted(ch, s[1..]);
      assert s == [s[0]] + s[1..];
      forall k | 0 <= k < |t| ensures s[0] <= t[k] {
        assert t[k] in multiset(t);
        if t[k] != ch {
          assert t[k] in multiset(s[1..]);
          var j :| 0 <= j < |s[1..]| && s[1..][j] == t[k];
          assert s[j + 1] == t[k];
        }
      }
      assert Insert(ch, s) == [s[0]] + t;
    }
  }

  /** `.sort()` on one-character strings: a sorted permutation. */
  function SortCodes(s: string): (r: string)
    ensures Sorted(r) && multiset(r) == multiset(s)
  {
    if |s| == 0 then ""
    else
      assert s == [s[0]] + s[1..];
      InsertSorted(s[0], SortCodes(s[1..]));
      Insert(s[0], SortCodes(s[1..]))
  }

  /** Sorting an already sorted string leaves it unchanged. */
  lemma {:induction false} SortSorted(s: string)
    requires Sorted(s)
    ensures SortCodes(s) == s
  {
    if |s| > 0 {
      SortSorted(s[1..]);
      assert s == [s[0]] + s[1..];
    }
  }

  /** The flags part: `b` for bloom, then `e` for echo. */
  function Flags(l: ClientLayer): string
  {
    (if l.bloom == Some(true) then "b" else "") + (if l.echo == Some(true) then "e" else "")
  }

  function HasSpawns(l: ClientLayer): bool
  {
    l.spawn.Some? && |l.spawn.value| > 0
  }

  /** The depth followed by the shape code, fractal when the shape is absent. */
  function Head(l: ClientLayer): string
  {
    IntToString(l.depth) + [ShapeCode(if l.shape.Some? then l.shape.value else Recipe.Fractal)]
  }

  /** The `.`-separated parts of an encoded layer. */
  function LayerParts(l: ClientLayer): (r: seq<string>)
    ensures 1 <= |r| <= 3 && r[0] == Head(l)
    ensures |r| >= 2 <==> HasSpawns(l)
    ensures |r| == 3 <==> HasSpawns(l) && (l.bloom == Some(true) || l.echo == Some(true))
  {
    if HasSpawns(l) then
      var spawns := SortCodes(Codes(l.spawn.value));
      [Head(l), spawns] + (if |Flags(l)| > 0 then [Flags(l)] else [])
    else [Head(l)]
  }

  /** The spawns part holds spawn codes only. */
  lemma SpawnsChars(ss: seq<Spawn>, x: char)
    requires x in SortCodes(Codes(ss))
    ensures x == 'd' || x == 'i' || x == 'o'
  {
    assert x in multiset(SortCodes(Codes(ss)));
    assert x in Codes(ss);
  }

  /** Every part but the head is a non-empty string of spawn or flag codes. */
  lemma LayerPartsChars(l: ClientLayer, k: nat, x: char)
    requires 1 <= k < |LayerParts(l)|
    ensures |LayerParts(l)[k]| >= 1
    ensures x in LayerParts(l)[k] ==> x in "diobe"
  {
    if k == 1 && x in LayerParts(l)[k] {
      SpawnsChars(l.spawn.value, x);
    }
  }

  /** The string ends with a shape, spawn or flag code. */
  predicate EndsWithCode(s: string)
  {
    |s| >= 1 && s[|s| - 1] in "fsdiobe"
  }

  /** A join ends with a code when its last piece does. */
  lemma JoinEndsWithCode(parts: seq<string>, c: char)
    requires |parts| >= 1 && EndsWithCode(parts[|parts| - 1])
    ensures EndsWithCode(Join(parts, c))
  {
    JoinLast(parts, c);
  }

  /** `encodeLayer`. It starts with the decimal depth and the shape code,
      contains a `-` only for a negative depth, and ends with a shape, spawn
      or flag code. */
  function EncodeLayer(l: ClientLayer): (r: string)
    ensures 0 <= l.depth < 10 ==> |r| >= 2 && r[..2] == [DigitChar(l.depth), ShapeCode(if l.shape.Some? then l.shape.value else Recipe.Fractal)]
    ensures '-' in r <==> l.depth < 0
    ensures EndsWithCode(r)
  {
    EncodeLayerHead(l);
    EncodeLayerDash(l);
    EncodeLayerEnd(l);
    Join(LayerParts(l), '.')
  }

  lemma EncodeLayerHead(l: ClientLayer)
    ensures var r := Join(LayerParts(l), '.');
      0 <= l.depth < 10 ==> |r| >= 2 && r[..2] == [DigitChar(l.depth), ShapeCode(if l.shape.Some? then l.shape.value else Recipe.Fractal)]
  {
    var parts := LayerParts(l);
    if 0 <= l.depth < 10 && |parts| > 1 {
      assert Join(parts, '.') == parts[0] + ['.'] + Join(parts[1..], '.');
    }
  }

  lemma EncodeLayerDash(l: ClientLayer)
    ensures '-' in Join(LayerParts(l), '.') <==> l.depth < 0
  {
    var parts := LayerParts(l);
    JoinChars(parts, '.', '-');
    forall k | 1 <= k < |parts| ensures '-' !in parts[k] {
      LayerPartsChars(l, k, '-');
    }
  }

  lemma EncodeLayerEnd(l: ClientLayer)
    ensures EndsWithCode(Join(LayerParts(l), '.'))
  {
    var parts := LayerParts(l);
    var n := |parts|;
    var last := parts[n - 1];
    if n > 1 {
      LayerPartsChars(l, n - 1, last[|last| - 1]);
    }
    JoinLast(parts, '.');
  }

  // Decoding.

  /** The spawns of a spawns part, in the order written; characters that are
      not spawn codes are skipped. */
  function DecodeSpawns(s: string): (r: seq<Spawn>)
    ensures |r| <= |s|
    ensures forall k :: 0 <= k < |r| ==> SpawnCode(r[k]) in s
    ensures |r| == 0 <==> forall k :: 0 <= k < |s| ==> DecodeSpawn(s[k]).None?
  {
    if |s| == 0 then []
    else
      var rest := DecodeSpawns(s[1..]);
      assert forall k :: 1 <= k < |s| ==> s[k] == s[1..][k - 1];
      match DecodeSpawn(s[0])
      case Some(x) => [x] + rest
      case None => rest
  }

  /** Decoding the codes of some spawns gives those spawns back. */
  lemma {:induction false} DecodeCodes(ss: seq<Spawn>)
    ensures DecodeSpawns(Codes(ss)) == ss
  {
    if |ss| > 0 {
      var s := Codes(ss);
      DecodeCodes(ss[1..]);
      assert s == [SpawnCode(ss[0])] + Codes(ss[1..]);
      assert s[1..] == Codes(ss[1..]);
      SpawnCodeInverse(ss[0], s[0]);
      assert DecodeSpawn(s[0]) == Some(ss[0]);
      assert DecodeSpawns(s) == [ss[0]] + DecodeSpawns(s[1..]);
      assert ss == [ss[0]] + ss[1..];
    }
  }

  /** An unknown character anywhere in a spawns part changes nothing. */
  lemma {:induction false} DecodeSpawnsSkip(a: string, x: char, b: string)
    requires DecodeSpawn(x).None?
    ensures DecodeSpawns(a + [x] + b) == DecodeSpawns(a + b)
  {
    if |a| > 0 {
      DecodeSpawnsSkip(a[1..], x, b);
      assert (a + [x] + b)[1..] == a[1..] + [x] + b;
      assert (a + b)[1..] == a[1..] + b;
    } else {
      assert (a + [x] + b)[1..] == b && a + b == b;
    }
  }

  /** The first part `/^(\d)([fs])$/` must match, with a depth from 1 to 5. */
  predicate HeadOk(p: string)
  {
    |p| == 2 && IsDigit(p[0]) && 1 <= DigitValue(p[0]) <= 5 && (p[1] == 'f' || p[1] == 's')
  }

  /** What every decoded layer satisfies: a depth from 1 to 5, a shape, a
      spawn list only when it is non-empty, and flags only set to true and
      only alongside spawns. */
  predicate WellFormed(l: ClientLayer)
  {
    1 <= l.depth <= 5 && l.shape.Some? &&
    (l.spawn.Some? ==> |l.spawn.value| > 0) &&
    l.bloom != Some(false) && l.echo != Some(false) &&
    (l.bloom.Some? || l.echo.Some? ==> l.spawn.Some?)
  }

  /** The spawns of the second part, if it decodes to at least one. */
  function SpawnField(parts: seq<string>): (r: Option<seq<Spawn>>)
    ensures r.Some? ==> |r.value| > 0
    ensures r.Some? <==> |parts| > 1 && exists k :: 0 <= k < |parts[1]| && DecodeSpawn(parts[1][k]).Some?
  {
    var spawns := if |parts| > 1 && |parts[1]| > 0 then DecodeSpawns(parts[1]) else [];
    if |spawns| > 0 then Some(spawns) else None
  }

  /** A flag is set when the third part contains its letter, and only when a
      spawn was decoded. */
  function FlagField(parts: seq<string>, spawn: Option<seq<Spawn>>, f: char): (r: Option<bool>)
    ensures r != Some(false)
    ensures r.Some? <==> spawn.Some? && |parts| > 2 && f in parts[2]
  {
    var flags := if |parts| > 2 && |parts[2]| > 0 && spawn.Some? then parts[2] else "";
    if f in flags then Some(true) else None
  }

  /** `decodeLayer` on the `.`-separated parts: `None` unless the first part
      is a valid head; then the head gives the depth and shape, the second
      part the spawns, and the third part the flags. Further parts are
      ignored. */
  function DecodeParts(parts: seq<string>): (r: Option<ClientLayer>)
    requires |parts| >= 1
    ensures r.Some? <==> HeadOk(parts[0])
    ensures r.Some? ==> WellFormed(r.value)
    ensures r.Some? ==> r.value.depth == DigitValue(parts[0][0]) && ShapeCode(r.value.shape.value) == parts[0][1]
    ensures r.Some? ==> r.value.spawn == SpawnField(parts)
    ensures r.Some? ==> r.value.bloom == FlagField(parts, r.value.spawn, 'b')
    ensures r.Some? ==> r.value.echo == FlagField(parts, r.value.spawn, 'e')
  {
    var p0 := parts[0];
    if !(|p0| == 2 && IsDigit(p0[0]) && (p0[1] == 'f' || p0[1] == 's')) then None
    else
      var depth := DigitValue(p0[0]);
      if depth < 1 || depth > 5 then None
      else
        var spawn := SpawnField(parts);
        var shape := if p0[1] == 'f' then Recipe.Fractal else Recipe.Solid;
        Some(ClientLayer(depth, Some(shape), spawn, FlagField(parts, spawn, 'b'), FlagField(parts, spawn, 'e')))
  }

  /** `decodeLayer`. */
  function DecodeLayer(s: string): (r: Option<ClientLayer>)
    ensures r.Some? <==> HeadOk(Split(s, '.')[0])
    ensures r.Some? ==> WellFormed(r.value)
  {
    DecodeParts(Split(s, '.'))
  }

  /** A layer the codec reproduces exactly: well formed, with its spawns
      already in code order. */
  predicate Normalised(l: ClientLayer)
  {
    WellFormed(l) && (l.spawn.Some? ==> Sorted(Codes(l.spawn.value)))
  }

  /** No part of an encoded layer of depth 0 or more contains a `.`. */
  lemma LayerPartsNoDot(l: ClientLayer)
    requires l.depth >= 0
    ensures forall k :: 0 <= k < |LayerParts(l)| ==> '.' !in LayerParts(l)[k]
  {
    forall k | 0 <= k < |LayerParts(l)| ensures '.' !in LayerParts(l)[k] {
      if k > 0 {
        LayerPartsChars(l, k, '.');
      }
    }
  }

  /** `decodeLayer(encodeLayer(l)) == l` for a normalised layer. */
  lemma DecodeEncodeLayer(l: ClientLayer)
    requires Normalised(l)
    ensures DecodeLayer(EncodeLayer(l)) == Some(l)
  {
    LayerPartsNoDot(l);
    SplitJoin(LayerParts(l), '.');
    DecodeLayerParts(l);
  }

  /** Decoding the parts of a normalised layer gives the layer. */
  lemma DecodeLayerParts(l: ClientLayer)
    requires Normalised(l)
    ensures DecodeParts(LayerParts(l)) == Some(l)
  {
    var parts := LayerParts(l);
    DigitRoundTrip(l.depth);
    assert parts[0] == [DigitChar(l.depth), ShapeCode(l.shape.value)];
    SpawnFieldOfLayer(l);
    FlagFieldOfLayer(l);
  }

  lemma SpawnFieldOfLayer(l: ClientLayer)
    requires Normalised(l)
    ensures SpawnField(LayerParts(l)) == l.spawn
  {
    var parts := LayerParts(l);
    if HasSpawns(l) {
      var codes := Codes(l.spawn.value);
      SortSorted(codes);
      DecodeCodes(l.spawn.value);
      assert parts[1] == codes;
      assert |codes| > 0;
      assert DecodeSpawns(parts[1]) == l.spawn.value;
    } else {
      assert |parts| == 1;
      assert l.spawn.None?;
    }
  }

  lemma FlagFieldOfLayer(l: ClientLayer)
    requires Normalised(l)
    ensures FlagField(LayerParts(l), l.spawn, 'b') == l.bloom
    ensures FlagField(LayerParts(l), l.spawn, 'e') == l.echo
  {
    var parts := LayerParts(l);
    var f := Flags(l);
    assert WellFormed(l);
    assert l.bloom.Some? ==> l.bloom.value;
    assert l.echo.Some? ==> l.echo.value;
    if |parts| == 3 {
      assert parts[2] == f;
      assert l.spawn.Some?;
      assert 'b' in f <==> l.bloom == Some(true);
      assert 'e' in f <==> l.echo == Some(true);
    } else {
      assert l.bloom != Some(true) && l.echo != Some(true);
      assert l.bloom == None && l.echo == None;
      assert !(|parts| > 2);
    }
  }

  /** `encodeLayers`: the encoded layers joined by `-`. */
  function EncodeLayers(ls: seq<ClientLayer>): (r: string)
    ensures |ls| == 0 ==> r == ""
    ensures |ls| >= 1 ==> EndsWithCode(r)
  {
    var parts := EncodeEach(ls);
    assert |ls| >= 1 ==> EndsWithCode(Join(parts, '-')) by {
      if |ls| >= 1 {
        assert parts[|parts| - 1] == EncodeLayer(ls[|ls| - 1]);
        JoinEndsWithCode(parts, '-');
      }
    }
    Join(parts, '-')
  }

  /** `layers.map(encodeLayer)`. */
  function EncodeEach(ls: seq<ClientLayer>): (r: seq<string>)
    ensures |r| == |ls| && forall k :: 0 <= k < |ls| ==> r[k] == EncodeLayer(ls[k])
  {
    if |ls| == 0 then []
    else
      assert forall k :: 1 <= k < |ls| ==> ls[1..][k - 1] == ls[k];
      [EncodeLayer(ls[0])] + EncodeEach(ls[1..])
  }

  /** Every `-`-separated piece decodes. */
  predicate AllDecode(parts: seq<string>)
  {
    forall k :: 0 <= k < |parts| ==> DecodeLayer(parts[k]).Some?
  }

  /** The layer loop of `decodeLayers`: every piece must decode. */
  function DecodeAll(parts: seq<string>): (r: Option<seq<ClientLayer>>)
    ensures r.Some? <==> AllDecode(parts)
    ensures r.Some? ==> (|r.value| == |parts| &&
      forall k :: 0 <= k < |parts| ==> DecodeLayer(parts[k]) == Some(r.value[k]))
  {
    if |parts| == 0 then Some([])
    else
      assert forall k :: 1 <= k < |parts| ==> parts[1..][k - 1] == parts[k];
      match DecodeLayer(parts[0])
      case None => None
      case Some(l) =>
        match DecodeAll(parts[1..])
        case None => None
        case Some(rest) => Some([l] + rest)
  }

  /** `decodeLayers`: `None` for the empty string or when any `-`-separated
      piece fails to decode; otherwise one layer per piece. */
  function DecodeLayers(s: string): (r: Option<seq<ClientLayer>>)
    ensures r.Some? <==> |s| > 0 && AllDecode(Split(s, '-'))
    ensures r.Some? ==> (|r.value| == |Split(s, '-')| >= 1 &&
      forall k :: 0 <= k < |r.value| ==> DecodeLayer(Split(s, '-')[k]) == Some(r.value[k]))
  {
    if |s| == 0 then None
    else
      var d := DecodeAll(Split(s, '-'));
      if d.None? then None
      else if |d.value| > 0 then d
      else None
  }

  /** Pieces that each decode to the corresponding layer decode together to
      the list of layers. */
  lemma DecodeAllOf(parts: seq<string>, ls: seq<ClientLayer>)
    requires |parts| == |ls|
    requires forall k :: 0 <= k < |parts| ==> DecodeLayer(parts[k]) == Some(ls[k])
    ensures DecodeAll(parts) == Some(ls)
  {
    var r := DecodeAll(parts);
    assert AllDecode(parts);
    forall k | 0 <= k < |ls| ensures r.value[k] == ls[k] {
      assert DecodeLayer(parts[k]) == Some(r.value[k]);
    }
    assert r.value == ls;
  }

  /** `decodeLayers(encodeLayers(ls)) == ls` for a non-empty list of
      normalised layers. */
  lemma DecodeEncodeLayers(ls: seq<ClientLayer>)
    requires |ls| >= 1 && forall k :: 0 <= k < |ls| ==> Normalised(ls[k])
    ensures DecodeLayers(EncodeLayers(ls)) == Some(ls)
  {
    var parts := EncodeEach(ls);
    SplitJoin(parts, '-');
    var s := EncodeLayers(ls);
    assert Split(s, '-') == parts;
    forall k | 0 <= k < |ls| ensures DecodeLayer(parts[k]) == Some(ls[k]) {
      DecodeEncodeLayer(ls[k]);
    }
    DecodeAllOf(parts, ls);
  }

  /** The path suffix that marks a six-way recipe. */
  predicate EndsWithSix(s: string)
  {
    |s| >= 2 && s[|s| - 2..] == "-6"
  }

  /** `parseRecipeFromPath`: a trailing `-6` is removed and sets six-way;
      the rest must decode. */
  function ParseRecipeFromPath(recipe: string): (r: Option<(seq<ClientLayer>, bool)>)
    ensures r.Some? ==> (r.value.1 <==> EndsWithSix(recipe)) && |r.value.0| >= 1
    ensures r.Some? <==> DecodeLayers(if EndsWithSix(recipe) then recipe[..|recipe| - 2] else recipe).Some?
  {
    var six := EndsWithSix(recipe);
    var param := if six then recipe[..|recipe| - 2] else recipe;
    match DecodeLayers(param)
    case None => None
    case Some(ls) => Some((ls, six))
  }

  /** Appending `-6` marks a path as six-way. */
  lemma SixSuffix(s: string)
    ensures EndsWithSix(s + "-6")
  {
    var t := s + "-6";
    assert t[|t| - 2..] == "-6" by {
      assert t[|t| - 2] == '-' && t[|t| - 1] == '6';
    }
  }

  /** A path that ends with a layer code does not end with `-6`. */
  lemma CodeIsNotSix(s: string)
    requires EndsWithCode(s)
    ensures !EndsWithSix(s)
  {
    if |s| >= 2 {
      assert s[|s| - 2..][1] == s[|s| - 1];
    }
  }

  /** `encodeRecipeToPath`. */
  function EncodeRecipeToPath(ls: seq<ClientLayer>, sixWay: bool): (r: string)
    ensures |ls| >= 1 ==> (EndsWithSix(r) <==> sixWay)
  {
    var s := EncodeLayers(ls);
    SixSuffix(s);
    if |ls| >= 1 then CodeIsNotSix(s); s + (if sixWay then "-6" else "")
    else s + (if sixWay then "-6" else "")
  }

  /** `parseRecipeFromPath(encodeRecipeToPath(ls, six))` gives back the layers
      and the six-way flag. */
  lemma PathRoundTrip(ls: seq<ClientLayer>, sixWay: bool)
    requires |ls| >= 1 && forall k :: 0 <= k < |ls| ==> Normalised(ls[k])
    ensures ParseRecipeFromPath(EncodeRecipeToPath(ls, sixWay)) == Some((ls, sixWay))
  {
    var s := EncodeLayers(ls);
    var path := EncodeRecipeToPath(ls, sixWay);
    DecodeEncodeLayers(ls);
    if sixWay {
      assert path[..|path| - 2] == s;
      assert path[|path| - 2..] == "-6";
    } else {
      assert path == s;
    }
  }
}
