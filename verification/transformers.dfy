/** The fixed-schema transforms of open_trails/transformers.py: Portland's
    trail segments and San Antonio's trailheads, each mapped feature by
    feature onto OpenTrails property names. */
module Transformers {
  import opened Text
  import opened Values

  const Yes: Value := Str("yes")
  const No: Value := Str("no")

  /** `bicycle`: allowed when road or mountain biking is marked exactly
      `Yes`. `MTNBIKE` is read only when `ROADBIKE` is not `Yes`. */
  function Bicycle(p: Properties): (r: Value)
    requires "ROADBIKE" in p
    requires p["ROADBIKE"] != Str("Yes") ==> "MTNBIKE" in p
    ensures r == Yes || r == No
    ensures r == Yes <==> p["ROADBIKE"] == Str("Yes") || ("MTNBIKE" in p && p["MTNBIKE"] == Str("Yes"))
  {
    if p["ROADBIKE"] == Str("Yes") || p["MTNBIKE"] == Str("Yes") then Yes else No
  }

  /** `horse` and `wheelchair`: `Yes` exactly, or else "no". */
  function YesFlag(p: Properties, key: string): (r: Value)
    requires key in p
    ensures r == Yes || r == No
    ensures r == Yes <==> p[key] == Str("Yes")
  {
    if p[key] == Str("Yes") then Yes else No
  }

  /** The Portland source attributes `portland_transform` reads, with `HIKE`
      a string (it is lower-cased). */
  predicate PortlandReady(p: Properties) {
    && "TRAILID" in p && "AGENCYNAME" in p && "TRAILNAME" in p
    && "HIKE" in p && p["HIKE"].Str?
    && "ROADBIKE" in p && (p["ROADBIKE"] != Str("Yes") ==> "MTNBIKE" in p)
    && "EQUESTRIAN" in p && "ACCESSIBLE" in p
  }

  /** The property names of a transformed Portland segment. */
  const SegmentKeys: set<string> :=
    {"id", "stewardId", "name", "vehicles", "foot", "bicycle", "horse", "ski", "wheelchair", "osmTags"}

  /** The OpenTrails properties of one Portland segment. */
  function PortlandProperties(p: Properties): (q: Properties)
    requires PortlandReady(p)
    ensures q.Keys == SegmentKeys
    ensures q["id"] == p["TRAILID"] && q["stewardId"] == p["AGENCYNAME"] && q["name"] == p["TRAILNAME"]
    ensures q["foot"] == Str(Lower(p["HIKE"].s))
    ensures q["bicycle"] == Yes <==> p["ROADBIKE"] == Str("Yes") || ("MTNBIKE" in p && p["MTNBIKE"] == Str("Yes"))
    ensures q["horse"] == Yes <==> p["EQUESTRIAN"] == Str("Yes")
    ensures q["wheelchair"] == Yes <==> p["ACCESSIBLE"] == Str("Yes")
    ensures forall k :: k in {"bicycle", "horse", "wheelchair"} ==> q[k] == Yes || q[k] == No
    ensures q["vehicles"] == Null && q["ski"] == Null && q["osmTags"] == Null
  {
    map[
      "id" := p["TRAILID"],
      "stewardId" := p["AGENCYNAME"],
      "name" := p["TRAILNAME"],
      "vehicles" := Null,
      "foot" := Str(Lower(p["HIKE"].s)),
      "bicycle" := Bicycle(p),
      "horse" := YesFlag(p, "EQUESTRIAN"),
      "ski" := Null,
      "wheelchair" := YesFlag(p, "ACCESSIBLE"),
      "osmTags" := Null
    ]
  }

  /** The `foot` value never holds an upper-case ASCII letter, so
      transforming an already lower-case `HIKE` copies it. */
  lemma PortlandFootIsLowerCase(p: Properties)
    requires PortlandReady(p)
    ensures var foot := PortlandProperties(p)["foot"];
            foot.Str? && forall i :: 0 <= i < |foot.s| ==> !IsAsciiUpper(foot.s[i])
    ensures (forall i :: 0 <= i < |p["HIKE"].s| ==> !IsAsciiUpper(p["HIKE"].s[i])) ==>
              PortlandProperties(p)["foot"] == p["HIKE"]
  {
    LowerFixedPoint(p["HIKE"].s);
  }

  predicate AllPortlandReady<G>(fc: FeatureCollection<G, Properties>) {
    forall i :: 0 <= i < |fc.features| ==> PortlandReady(fc.features[i].properties)
  }

  /** `portland_transform`: one output feature per input feature, in order,
      with the geometry copied. */
  function PortlandTransform<G>(fc: FeatureCollection<G, Properties>): (out: FeatureCollection<G, Properties>)
    requires AllPortlandReady(fc)
    ensures |out.features| == |fc.features|
    ensures forall i :: 0 <= i < |fc.features| ==>
              && out.features[i].geometry == fc.features[i].geometry
              && out.features[i].properties == PortlandProperties(fc.features[i].properties)
  {
    var fs := fc.features;
    FeatureCollection(seq(|fs|, i requires 0 <= i < |fs| =>
      Feature(fs[i].geometry, PortlandProperties(fs[i].properties))))
  }

  /** Every transformed segment has the full OpenTrails schema and only
      "yes"/"no" use flags for bicycle, horse and wheelchair. */
  lemma PortlandTransformSchema<G>(fc: FeatureCollection<G, Properties>, i: nat)
    requires AllPortlandReady(fc)
    requires i < |fc.features|
    ensures var q := PortlandTransform(fc).features[i].properties;
            q.Keys == SegmentKeys &&
            (q["bicycle"] == Yes || q["bicycle"] == No) &&
            (q["horse"] == Yes || q["horse"] == No) &&
            (q["wheelchair"] == Yes || q["wheelchair"] == No)
  {
    var q := PortlandProperties(fc.features[i].properties);
    assert q["bicycle"] == Yes || q["bicycle"] == No by {
      assert "bicycle" in {"bicycle", "horse", "wheelchair"};
    }
    assert q["horse"] == Yes || q["horse"] == No by {
      assert "horse" in {"bicycle", "horse", "wheelchair"};
    }
    assert q["wheelchair"] == Yes || q["wheelchair"] == No by {
      assert "wheelchair" in {"bicycle", "horse", "wheelchair"};
    }
  }

  /** The property names of a transformed San Antonio trailhead. */
  const TrailheadKeys: set<string> :=
    {"name", "id", "trailIds", "stewardId", "areaId", "address", "parking",
     "drinkwater", "restrooms", "kiosk", "osmTags"}

  /** The properties `sa_transform` gives a trailhead named `name`, numbered
      `id`, belonging to `stewardId`. */
  function SaProperties(name: Value, id: int, stewardId: Value): Properties {
    map[
      "name" := name,
      "id" := Num(id),
      "trailIds" := Null,
      "stewardId" := stewardId,
      "areaId" := Null,
      "address" := Null,
      "parking" := Null,
      "drinkwater" := Null,
      "restrooms" := Null,
      "kiosk" := Null,
      "osmTags" := Null
    ]
  }

  predicate AllNamed<G>(fc: FeatureCollection<G, Properties>) {
    forall i :: 0 <= i < |fc.features| ==> "Name" in fc.features[i].properties
  }

  /** The collection `sa_transform` builds: the i-th trailhead gets id
      i + 1. */
  function SaTransformed<G>(fc: FeatureCollection<G, Properties>, stewardId: Value): (out: FeatureCollection<G, Properties>)
    requires AllNamed(fc)
  {
    var fs := fc.features;
    FeatureCollection(seq(|fs|, i requires 0 <= i < |fs| =>
      Feature(fs[i].geometry, SaProperties(fs[i].properties["Name"], i + 1, stewardId))))
  }

  /** `sa_transform`: trailheads numbered 1, 2, ... in input order by a
      running counter, each stamped with `stewardId`, the name copied from
      `Name`, and every other property null. */
  method SaTransform<G>(fc: FeatureCollection<G, Properties>, stewardId: Value)
    returns (out: FeatureCollection<G, Properties>)
    requires AllNamed(fc)
    ensures out == SaTransformed(fc, stewardId)
    ensures |out.features| == |fc.features|
    ensures forall i :: 0 <= i < |fc.features| ==>
              var q := out.features[i].properties;
              && out.features[i].geometry == fc.features[i].geometry
              && q.Keys == TrailheadKeys
              && q["id"] == Num(i + 1)
              && q["name"] == fc.features[i].properties["Name"]
              && q["stewardId"] == stewardId
              && forall k :: k in TrailheadKeys - {"id", "name", "stewardId"} ==> q[k] == Null
    ensures forall i, j :: 0 <= i < j < |out.features| ==>
              out.features[i].properties["id"].n < out.features[j].properties["id"].n
  {
    var features: seq<Feature<G, Properties>> := [];
    var trailheadIds := 1;
    for i := 0 to |fc.features|
      invariant |features| == i
      invariant trailheadIds == i + 1
      invariant forall j :: 0 <= j < i ==>
                  features[j] == Feature(fc.features[j].geometry,
                                         SaProperties(fc.features[j].properties["Name"], j + 1, stewardId))
    {
      var oldTrailhead := fc.features[i];
      var properties := SaProperties(oldTrailhead.properties["Name"], trailheadIds, stewardId);
      features := features + [Feature(oldTrailhead.geometry, properties)];
      trailheadIds := trailheadIds + 1;
    }
    out := FeatureCollection(features);
  }

  datatype Option<T> = None | Some(value: T)

  /** `segments_transform` as evidently intended: the Portland schema is tried
      first; when a Portland attribute is missing (or `HIKE` has no
      `lower()`), the San Antonio schema is tried; when that fails too, the
      result is None. */
  function SegmentsTransform<G>(rawGeojson: FeatureCollection<G, Properties>, stewardId: Value)
    : (r: Option<FeatureCollection<G, Properties>>)
    ensures r.None? <==> !AllPortlandReady(rawGeojson) && !AllNamed(rawGeojson)
    ensures AllPortlandReady(rawGeojson) ==> r == Some(PortlandTransform(rawGeojson))
    ensures !AllPortlandReady(rawGeojson) && AllNamed(rawGeojson) ==> r == Some(SaTransformed(rawGeojson, stewardId))
  {
    if AllPortlandReady(rawGeojson) then Some(PortlandTransform(rawGeojson))
    else if AllNamed(rawGeojson) then Some(SaTransformed(rawGeojson, stewardId))
    else None
  }

  /** `segments_transform` as written. Its parameter is spelled `raw_geosjon`
      while both attempts read `raw_geojson`, which is looked up among the
      locals and then among the module's `globals`. When the name is unbound
      the lookup raises NameError, the bare `except` swallows it, and the
      function falls off its end. */
  function SegmentsTransformAsWritten<G>(
    rawGeosjon: FeatureCollection<G, Properties>, stewardId: Value,
    globals: map<string, FeatureCollection<G, Properties>>)
    : (r: Option<FeatureCollection<G, Properties>>)
    ensures "raw_geojson" !in globals ==> r == None
  {
    var scope := globals["raw_geosjon" := rawGeosjon];
    if "raw_geojson" in scope then SegmentsTransform(scope["raw_geojson"], stewardId) else None
  }

  /** transformers.py binds no global `raw_geojson`, so as written every
      input is lost, a Portland collection included, although the intended
      transform converts it. */
  lemma SegmentsTransformAsWrittenLosesInput<G>(rawGeojson: FeatureCollection<G, Properties>, stewardId: Value)
    ensures SegmentsTransformAsWritten(rawGeojson, stewardId, map[]) == None
    ensures AllPortlandReady(rawGeojson) ==> SegmentsTransform(rawGeojson, stewardId) != None
  {
  }

  /** A concrete witness: one Portland segment whose every attribute is
      present. */
  lemma SegmentsTransformAsWrittenCounterexample()
    ensures var p: Properties := map["TRAILID" := Num(1), "AGENCYNAME" := Str("Metro"),
                                     "TRAILNAME" := Str("Wildwood"), "HIKE" := Str("Yes"),
                                     "ROADBIKE" := Str("No"), "MTNBIKE" := Str("No"),
                                     "EQUESTRIAN" := Str("No"), "ACCESSIBLE" := Str("No")];
            var fc := FeatureCollection([Feature(0, p)]);
            && SegmentsTransformAsWritten(fc, Null, map[]) == None
            && SegmentsTransform(fc, Null) == Some(PortlandTransform(fc))
  {
  }
}
