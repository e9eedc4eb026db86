/** The client's URL state (`useUrlSync.ts`): reading the preset, layers,
    six-way and auto-rotate settings from the query string, and writing the
    shareable subset of them back. The query string is a map from key to its
    first value. */
module UrlState {
  import opened Wrappers
  import Recipe
  import Codec

  /** `URLSearchParams`: `get` returns the value of a key or nothing. */
  type Params = map<string, string>

  const PresetKey := "p"
  const LayersKey := "l"
  const SixWayKey := "6"
  const RotateKey := "r"

  /** Every field is optional; an absent field leaves the current setting. */
  datatype State = State(
    preset: Option<Recipe.Preset>,
    layers: Option<seq<Codec.ClientLayer>>,
    sixWay: Option<bool>,
    autoRotate: Option<bool>)

  /** `VALID_PRESETS`: the five preset names, mapped to their presets. */
  function ValidPreset(name: string): (r: Option<Recipe.Preset>)
    ensures forall p :: name == Recipe.PresetName(p) ==> r == Some(p)
    ensures (forall p :: name != Recipe.PresetName(p)) ==> r == None
  {
    assert Recipe.PresetName(Recipe.Flake) == "flake" && Recipe.PresetName(Recipe.Tower) == "tower";
    assert Recipe.PresetName(Recipe.EvilTower) == "evil_tower" && Recipe.PresetName(Recipe.Flower) == "flower";
    assert Recipe.PresetName(Recipe.TempleComplex) == "temple_complex";
    if name in {"flake", "tower", "evil_tower", "flower", "temple_complex"} then Some(Recipe.PresetNamed(name))
    else None
  }

  /** `parseUrlState`: the preset only when it is a valid name, the layers only
      when they decode, and each flag exactly when its key is present, true
      only for the value `1`. */
  function ParseUrlState(params: Params): (r: State)
    ensures r.preset.Some? ==> PresetKey in params && Recipe.PresetName(r.preset.value) == params[PresetKey]
    ensures forall p :: PresetKey in params && params[PresetKey] == Recipe.PresetName(p) ==> r.preset == Some(p)
    ensures r.layers.Some? <==> LayersKey in params && Codec.DecodeLayers(params[LayersKey]).Some?
    ensures r.layers.Some? ==> r.layers == Codec.DecodeLayers(params[LayersKey]) && |r.layers.value| >= 1
    ensures r.sixWay.Some? <==> SixWayKey in params
    ensures r.sixWay == Some(true) <==> SixWayKey in params && params[SixWayKey] == "1"
    ensures r.autoRotate.Some? <==> RotateKey in params
    ensures r.autoRotate == Some(true) <==> RotateKey in params && params[RotateKey] == "1"
  {
    var preset := if PresetKey in params && |params[PresetKey]| > 0 then ValidPreset(params[PresetKey]) else None;
    var layers := if LayersKey in params && |params[LayersKey]| > 0 then Codec.DecodeLayers(params[LayersKey]) else None;
    var sixWay := if SixWayKey in params then Some(params[SixWayKey] == "1") else None;
    var rotate := if RotateKey in params then Some(params[RotateKey] == "1") else None;
    State(preset, layers, sixWay, rotate)
  }

  /** `buildUrlParams`: the layers when there are any, `6=1` when six-way is
      on, and `r=0` when auto-rotate is explicitly off. The preset is never
      written: the layers carry the recipe. */
  function BuildUrlParams(s: State): (r: Params)
    ensures r.Keys <= {LayersKey, SixWayKey, RotateKey}
    ensures LayersKey in r <==> s.layers.Some? && |s.layers.value| > 0
    ensures LayersKey in r ==> r[LayersKey] == Codec.EncodeLayers(s.layers.value)
    ensures SixWayKey in r <==> s.sixWay == Some(true)
    ensures SixWayKey in r ==> r[SixWayKey] == "1"
    ensures RotateKey in r <==> s.autoRotate == Some(false)
    ensures RotateKey in r ==> r[RotateKey] == "0"
  {
    assert LayersKey != SixWayKey && LayersKey != RotateKey && SixWayKey != RotateKey;
    var withLayers: Params :=
      if s.layers.Some? && |s.layers.value| > 0 then map[LayersKey := Codec.EncodeLayers(s.layers.value)] else map[];
    var withSix := if s.sixWay == Some(true) then withLayers[SixWayKey := "1"] else withLayers;
    if s.autoRotate == Some(false) then withSix[RotateKey := "0"] else withSix
  }

  /** The six-way setting a state stands for: off unless set. */
  predicate SixWayOn(s: State)
  {
    s.sixWay == Some(true)
  }

  /** The auto-rotate setting a state stands for: on unless switched off. */
  predicate RotateOn(s: State)
  {
    s.autoRotate != Some(false)
  }

  /** Every layer a state carries is in the codec's normal form. */
  predicate NormalisedLayers(s: State)
  {
    s.layers.Some? ==> forall k :: 0 <= k < |s.layers.value| ==> Codec.Normalised(s.layers.value[k])
  }

  /** Reading back the written parameters recovers the (non-empty, normalised)
      layers and the effective six-way and auto-rotate settings; the preset is
      lost. */
  lemma ParseBuild(s: State)
    requires NormalisedLayers(s)
    ensures var t := ParseUrlState(BuildUrlParams(s));
      t.preset == None &&
      t.layers == (if s.layers.Some? && |s.layers.value| > 0 then s.layers else None) &&
      (SixWayOn(t) <==> SixWayOn(s)) && (RotateOn(t) <==> RotateOn(s))
  {
    var params := BuildUrlParams(s);
    if s.layers.Some? && |s.layers.value| > 0 {
      Codec.DecodeEncodeLayers(s.layers.value);
    }
    assert PresetKey !in params;
  }

  /** Writing a state that was read back changes nothing: the written
      parameters are a fixed point of reading and writing. */
  lemma BuildParseBuild(s: State)
    requires NormalisedLayers(s)
    ensures BuildUrlParams(ParseUrlState(BuildUrlParams(s))) == BuildUrlParams(s)
  {
    ParseBuild(s);
    var a := BuildUrlParams(s);
    var b := BuildUrlParams(ParseUrlState(a));
    assert a.Keys == b.Keys;
  }

  /** Any query string, read and written back, keeps `6` only with the value
      `1` and turns any `r` other than `1` into `r=0`. */
  lemma BuildParseFlags(params: Params)
    ensures var out := BuildUrlParams(ParseUrlState(params));
      (SixWayKey in out <==> SixWayKey in params && params[SixWayKey] == "1") &&
      (RotateKey in out <==> RotateKey in params && params[RotateKey] != "1") &&
      PresetKey !in out
  {
    assert PresetKey != LayersKey && PresetKey != SixWayKey && PresetKey != RotateKey;
  }
}
