/** The early prototype in hello.py: numbering the trail names of a
    trailhead file, building the named-trails rows, and converting trailheads
    to OpenTrails properties. Every trailhead carries up to five trail names
    in the slots `trail1`..`trail5` (`Trail1`..`Trail5` in the converter). */
module Hello {
  import opened Sequences
  import opened Text
  import opened Values

  /** `yes_or_no`: exactly "Y" and "N" are recognised; every other value,
      "y" and "Yes" included, gives None. */
  function YesOrNo(v: Value): (r: Value)
    ensures r == Str("yes") <==> v == Str("Y")
    ensures r == Str("no") <==> v == Str("N")
    ensures r == Null <==> v != Str("Y") && v != Str("N")
  {
    if v == Str("Y") then Str("yes")
    else if v == Str("N") then Str("no")
    else Null
  }

  /** The key of trail slot `k`: `prefix + str(k)`. */
  function SlotKey(prefix: string, k: nat): string {
    prefix + DecimalString(k)
  }

  /** The five slot keys are distinct. */
  lemma SlotKeysDistinct(prefix: string, j: nat, k: nat)
    requires SlotKey(prefix, j) == SlotKey(prefix, k)
    ensures j == k
  {
    assert DecimalString(j) == SlotKey(prefix, j)[|prefix|..];
    assert DecimalString(k) == SlotKey(prefix, k)[|prefix|..];
    DecimalStringInjective(j, k);
  }

  predicate HasSlots(p: Properties, prefix: string) {
    forall k :: 1 <= k <= 5 ==> SlotKey(prefix, k) in p
  }

  /** The values of the five slots, in slot order. */
  function Slots(p: Properties, prefix: string): (vs: seq<Value>)
    requires HasSlots(p, prefix)
    ensures |vs| == 5
    ensures forall i :: 0 <= i < 5 ==> vs[i] == p[SlotKey(prefix, i + 1)]
  {
    seq(5, i requires 0 <= i < 5 => p[SlotKey(prefix, i + 1)])
  }

  /** Keeping the truthy values of a growing prefix of `s`. */
  lemma TruthyOnlyStep(s: seq<Value>, k: nat)
    requires k < |s|
    ensures TruthyOnly(s[..k + 1]) == TruthyOnly(s[..k]) + (if Truthy(s[k]) then [s[k]] else [])
  {
    assert s[..k + 1][..k] == s[..k];
  }

  /** `get_trail_ids`: the truthy values of `Trail1`..`Trail5`, in slot
      order. */
  method GetTrailIds(p: Properties) returns (trailIds: seq<Value>)
    requires HasSlots(p, "Trail")
    ensures trailIds == TruthyOnly(Slots(p, "Trail"))
    ensures |trailIds| <= 5
    ensures forall v :: v in trailIds <==> Truthy(v) && v in Slots(p, "Trail")
  {
    var slots := Slots(p, "Trail");
    trailIds := [];
    for trailid := 1 to 6
      invariant trailIds == TruthyOnly(slots[..trailid - 1])
    {
      TruthyOnlyStep(slots, trailid - 1);
      var v := slots[trailid - 1];
      if Truthy(v) {
        trailIds := trailIds + [v];
      }
    }
    assert slots[..5] == slots;
  }

  ghost predicate AllHaveSlots<G>(fs: seq<Feature<G, Properties>>, prefix: string) {
    forall i :: 0 <= i < |fs| ==> HasSlots(fs[i].properties, prefix)
  }

  /** The truthy `trail1`..`trail5` values in the order the prototype visits
      them: feature by feature, slot by slot. */
  function VisitOrder<G>(fs: seq<Feature<G, Properties>>): seq<Value>
    requires AllHaveSlots(fs, "trail")
  {
    if |fs| == 0 then []
    else VisitOrder(fs[..|fs| - 1]) + TruthyOnly(Slots(fs[|fs| - 1].properties, "trail"))
  }

  /** The visit order holds the truthy slot values of every feature. */
  lemma {:induction false} VisitOrderContains<G>(fs: seq<Feature<G, Properties>>, i: nat, v: Value)
    requires AllHaveSlots(fs, "trail")
    requires i < |fs|
    requires v in TruthyOnly(Slots(fs[i].properties, "trail"))
    ensures v in VisitOrder(fs)
  {
    if i < |fs| - 1 {
      VisitOrderContains(fs[..|fs| - 1], i, v);
    }
  }

  /** Only truthy slot values are visited. */
  lemma {:induction false} VisitOrderOnlySlots<G>(fs: seq<Feature<G, Properties>>, v: Value)
    requires AllHaveSlots(fs, "trail")
    requires v in VisitOrder(fs)
    ensures Truthy(v) && exists i :: 0 <= i < |fs| && v in Slots(fs[i].properties, "trail")
  {
    var prefix := fs[..|fs| - 1];
    if v in VisitOrder(prefix) {
      VisitOrderOnlySlots(prefix, v);
      var i :| 0 <= i < |prefix| && v in Slots(prefix[i].properties, "trail");
      assert prefix[i] == fs[i];
    } else {
      assert v in Slots(fs[|fs| - 1].properties, "trail");
    }
  }

  /** The visit order up to slot `k + 1` extends the one up to slot `k` by
      that slot's value exactly when it is truthy. */
  lemma SeenStep(visited: seq<Value>, slots: seq<Value>, k: nat, seen: seq<Value>)
    requires k < |slots|
    requires seen == visited + TruthyOnly(slots[..k])
    ensures (if Truthy(slots[k]) then seen + [slots[k]] else seen) == visited + TruthyOnly(slots[..k + 1])
  {
    TruthyOnlyStep(slots, k);
  }

  /** `SeenStep` with nothing visited before: the truthy values up to slot
      `k + 1` extend those up to slot `k` exactly when that slot is truthy. */
  lemma TruthyPrefixStep(slots: seq<Value>, k: nat, seen: seq<Value>)
    requires k < |slots|
    requires seen == TruthyOnly(slots[..k])
    ensures (if Truthy(slots[k]) then seen + [slots[k]] else seen) == TruthyOnly(slots[..k + 1])
  {
    assert seen == [] + seen;
    SeenStep([], slots, k, seen);
    assert [] + TruthyOnly(slots[..k + 1]) == TruthyOnly(slots[..k + 1]);
  }

  /** One pass of the inner loop of `give_ids_to_namedtrails`: the truthy
      slots of one feature are numbered, continuing from `uniqueTrailId`. */
  method NumberSlots(trailNameIds: map<Value, nat>, uniqueTrailId: nat, ghost visited: seq<Value>, p: Properties)
    returns (ids: map<Value, nat>, next: nat)
    requires HasSlots(p, "trail")
    requires trailNameIds == Numbering(Dedup(visited))
    requires uniqueTrailId == |Dedup(visited)| + 1
    ensures ids == Numbering(Dedup(visited + TruthyOnly(Slots(p, "trail"))))
    ensures next == |Dedup(visited + TruthyOnly(Slots(p, "trail")))| + 1
  {
    ghost var slots := Slots(p, "trail");
    ids, next := trailNameIds, uniqueTrailId;
    ghost var seen := visited;
    assert slots[..0] == [];
    for trailid := 1 to 6
      invariant seen == visited + TruthyOnly(slots[..trailid - 1])
      invariant ids == Numbering(Dedup(seen))
      invariant next == |Dedup(seen)| + 1
    {
      var v := p[SlotKey("trail", trailid)];
      SeenStep(visited, slots, trailid - 1, seen);
      if Truthy(v) {
        FirstSeenNumberingSnoc(seen, v);
        if v !in ids {
          ids := ids[v := next];
          next := next + 1;
        }
        seen := seen + [v];
      }
    }
    assert slots[..5] == slots;
  }

  /** `give_ids_to_namedtrails`: the ids are the first-seen numbering of the
      truthy trail values in visit order; `TrailNameIdsFirstSeen` states what
      that numbering is. */
  method GiveIdsToNamedTrails<G>(fc: FeatureCollection<G, Properties>) returns (trailNameIds: map<Value, nat>)
    requires AllHaveSlots(fc.features, "trail")
    ensures trailNameIds == Numbering(Dedup(VisitOrder(fc.features)))
    ensures forall v :: v in trailNameIds <==> v in VisitOrder(fc.features)
  {
    var fs := fc.features;
    trailNameIds := map[];
    var uniqueTrailId := 1;
    for i := 0 to |fs|
      invariant trailNameIds == Numbering(Dedup(VisitOrder(fs[..i])))
      invariant uniqueTrailId == |Dedup(VisitOrder(fs[..i]))| + 1
    {
      assert fs[..i + 1][..i] == fs[..i];
      trailNameIds, uniqueTrailId := NumberSlots(trailNameIds, uniqueTrailId, VisitOrder(fs[..i]), fs[i].properties);
    }
    assert fs[..|fs|] == fs;
  }

  /** The trail-name ids count from 1 without gaps, in order of first
      appearance: the i-th distinct value visited gets id i + 1, and one value
      has a smaller id than another exactly when it is visited first. */
  lemma TrailNameIdsFirstSeen<G>(fs: seq<Feature<G, Properties>>)
    requires AllHaveSlots(fs, "trail")
    ensures var ids := Numbering(Dedup(VisitOrder(fs)));
            && (forall v :: v in ids ==> 1 <= ids[v] <= |ids|)
            && (forall i :: 0 <= i < |Dedup(VisitOrder(fs))| ==> ids[Dedup(VisitOrder(fs))[i]] == i + 1)
            && (forall a, b :: a in ids && b in ids ==>
                  (ids[a] < ids[b] <==> IndexOf(VisitOrder(fs), a) < IndexOf(VisitOrder(fs), b)))
  {
    FirstSeenNumberingDense(VisitOrder(fs));
    FirstSeenNumberingOrder(VisitOrder(fs));
  }

  /** One row of the prototype's named-trails table:
      `["NAME", ids, n, "DESCRIPTION", "DESIGNATION", "PART OF"]`. */
  datatype NamedTrailRow = NamedTrailRow(
    name: string,
    trailIds: seq<nat>,
    uniqueId: nat,
    description: string,
    designation: string,
    partOf: string)

  /** The ids of `vs` under `ids`, in order. */
  function IdsOf(ids: map<Value, nat>, vs: seq<Value>): (r: seq<nat>)
    requires forall v :: v in vs ==> v in ids
    ensures |r| == |vs|
    ensures forall i :: 0 <= i < |vs| ==> r[i] == ids[vs[i]]
  {
    seq(|vs|, i requires 0 <= i < |vs| => ids[vs[i]])
  }

  /** Looking up one more value appends its id. */
  lemma IdsOfSnoc(ids: map<Value, nat>, vs: seq<Value>, x: Value)
    requires forall v :: v in vs ==> v in ids
    requires x in ids
    ensures IdsOf(ids, vs + [x]) == IdsOf(ids, vs) + [ids[x]]
  {
  }

  /** The inner loop of `create_namedtrails`: the ids of one feature's truthy
      slots, in slot order. */
  method SlotIds(trailNameIds: map<Value, nat>, p: Properties) returns (segmentIds: seq<nat>)
    requires HasSlots(p, "trail")
    requires forall v :: v in TruthyOnly(Slots(p, "trail")) ==> v in trailNameIds
    ensures segmentIds == IdsOf(trailNameIds, TruthyOnly(Slots(p, "trail")))
  {
    var slots := Slots(p, "trail");
    ghost var seen: seq<Value> := [];
    segmentIds := [];
    assert slots[..0] == [];
    for trailid := 1 to 6
      invariant seen == TruthyOnly(slots[..trailid - 1])
      invariant forall v :: v in seen ==> v in trailNameIds
      invariant segmentIds == IdsOf(trailNameIds, seen)
    {
      var v := slots[trailid - 1];
      TruthyPrefixStep(slots, trailid - 1, seen);
      if Truthy(v) {
        assert v in TruthyOnly(slots);
        IdsOfSnoc(trailNameIds, seen, v);
        segmentIds := segmentIds + [trailNameIds[v]];
        seen := seen + [v];
      }
    }
    assert slots[..5] == slots;
  }

  /** Every truthy slot of `p` has an id in `ids`. */
  predicate SlotsHaveIds(ids: map<Value, nat>, p: Properties)
    requires HasSlots(p, "trail")
  {
    forall v :: v in TruthyOnly(Slots(p, "trail")) ==> v in ids
  }

  /** The row `create_namedtrails` writes for the `i`-th feature, whose
      properties are `p`. */
  function Row(ids: map<Value, nat>, p: Properties, i: nat): NamedTrailRow
    requires HasSlots(p, "trail") && SlotsHaveIds(ids, p)
  {
    NamedTrailRow("NAME", IdsOf(ids, TruthyOnly(Slots(p, "trail"))), i + 1,
                  "DESCRIPTION", "DESIGNATION", "PART OF")
  }

  /** Every truthy slot value of every feature has an id. */
  lemma SlotsNumbered<G>(fs: seq<Feature<G, Properties>>, i: nat)
    requires AllHaveSlots(fs, "trail")
    requires i < |fs|
    ensures SlotsHaveIds(Numbering(Dedup(VisitOrder(fs))), fs[i].properties)
  {
    forall v | v in TruthyOnly(Slots(fs[i].properties, "trail"))
      ensures v in Numbering(Dedup(VisitOrder(fs)))
    {
      VisitOrderContains(fs, i, v);
    }
  }

  /** The loop of `create_namedtrails` once the ids are known: one row per
      feature, numbered from 1. */
  method BuildRows<G>(trailNameIds: map<Value, nat>, fs: seq<Feature<G, Properties>>)
    returns (namedTrails: seq<NamedTrailRow>)
    requires AllHaveSlots(fs, "trail")
    requires forall i :: 0 <= i < |fs| ==> SlotsHaveIds(trailNameIds, fs[i].properties)
    ensures |namedTrails| == |fs|
    ensures forall i :: 0 <= i < |fs| ==> namedTrails[i] == Row(trailNameIds, fs[i].properties, i)
  {
    namedTrails := [];
    var uniqueId := 1;
    for i := 0 to |fs|
      invariant |namedTrails| == i
      invariant uniqueId == i + 1
      invariant forall j :: 0 <= j < i ==> namedTrails[j] == Row(trailNameIds, fs[j].properties, j)
    {
      var p := fs[i].properties;
      var segmentIds := SlotIds(trailNameIds, p);
      namedTrails := namedTrails + [NamedTrailRow("NAME", segmentIds, uniqueId,
                                                  "DESCRIPTION", "DESIGNATION", "PART OF")];
      uniqueId := uniqueId + 1;
    }
  }

  /** `create_namedtrails`: one row per feature; row i carries the id i + 1
      and the ids of that feature's truthy trail values, in slot order. The
      id lookup never fails. */
  method CreateNamedTrails<G>(fc: FeatureCollection<G, Properties>) returns (namedTrails: seq<NamedTrailRow>)
    requires AllHaveSlots(fc.features, "trail")
    ensures |namedTrails| == |fc.features|
    ensures forall i :: 0 <= i < |fc.features| ==>
              && SlotsHaveIds(Numbering(Dedup(VisitOrder(fc.features))), fc.features[i].properties)
              && namedTrails[i] == Row(Numbering(Dedup(VisitOrder(fc.features))), fc.features[i].properties, i)
  {
    var trailNameIds := GiveIdsToNamedTrails(fc);
    forall i | 0 <= i < |fc.features|
      ensures SlotsHaveIds(trailNameIds, fc.features[i].properties)
    {
      SlotsNumbered(fc.features, i);
    }
    namedTrails := BuildRows(trailNameIds, fc.features);
  }

  /** An OpenTrails trailhead as `convert2open_trails` builds it. */
  datatype OpenTrailhead = OpenTrailhead(
    name: Value,
    trailIds: seq<Value>,
    stewardId: Value,
    areaId: Value,
    address: Value,
    parking: Value,
    drinkwater: Value,
    restrooms: Value,
    kiosk: Value,
    osmTags: Value)

  const PrototypeOsmTags: Value := Str("natural=stone; natural=tree")

  /** The source attributes `convert2open_trails` reads. */
  predicate ConvertReady(p: Properties) {
    && "Name" in p && HasSlots(p, "Trail") && "Address" in p
    && "parking" in p && "drinkwater" in p && "restrooms" in p && "kiosk" in p
  }

  ghost predicate AllConvertReady<G>(fc: FeatureCollection<G, Properties>) {
    forall i :: 0 <= i < |fc.features| ==> ConvertReady(fc.features[i].properties)
  }

  /** What `convert2open_trails` makes of one trailhead's properties. */
  ghost predicate ConvertedFrom(q: OpenTrailhead, p: Properties)
    requires ConvertReady(p)
  {
    && q.name == p["Name"]
    && q.trailIds == TruthyOnly(Slots(p, "Trail"))
    && q.stewardId == Null && q.areaId == Null
    && q.address == p["Address"]
    && q.parking == YesOrNo(p["parking"])
    && q.drinkwater == YesOrNo(p["drinkwater"])
    && q.restrooms == YesOrNo(p["restrooms"])
    && q.kiosk == YesOrNo(p["kiosk"])
    && q.osmTags == PrototypeOsmTags
  }

  /** `convert2open_trails`: one trailhead per input feature, in order, with
      the geometry copied. */
  method ConvertToOpenTrails<G>(fc: FeatureCollection<G, Properties>)
    returns (out: FeatureCollection<G, OpenTrailhead>)
    requires AllConvertReady(fc)
    ensures |out.features| == |fc.features|
    ensures forall i :: 0 <= i < |fc.features| ==>
              && out.features[i].geometry == fc.features[i].geometry
              && ConvertedFrom(out.features[i].properties, fc.features[i].properties)
    ensures forall i :: 0 <= i < |out.features| ==>
              && out.features[i].properties.stewardId == Null
              && out.features[i].properties.areaId == Null
              && out.features[i].properties.osmTags == PrototypeOsmTags
              && |out.features[i].properties.trailIds| <= 5
  {
    var features: seq<Feature<G, OpenTrailhead>> := [];
    for i := 0 to |fc.features|
      invariant |features| == i
      invariant forall j :: 0 <= j < i ==>
                  && features[j].geometry == fc.features[j].geometry
                  && ConvertedFrom(features[j].properties, fc.features[j].properties)
    {
      var trailhead := fc.features[i];
      var p := trailhead.properties;
      var trailIds := GetTrailIds(p);
      var properties := OpenTrailhead(
        p["Name"], trailIds, Null, Null, p["Address"],
        YesOrNo(p["parking"]), YesOrNo(p["drinkwater"]), YesOrNo(p["restrooms"]), YesOrNo(p["kiosk"]),
        PrototypeOsmTags);
      features := features + [Feature(trailhead.geometry, properties)];
    }
    out := FeatureCollection(features);
  }
}
