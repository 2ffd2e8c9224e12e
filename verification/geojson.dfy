/** `scripts/lastPharmaciesToGeoJSON.py`: the merged pharmacy list, as read
    back from its JSON file, turned into a GeoJSON feature collection of points.
    Reading and writing the files and the dated output name are left out. */
module GeoJson {
  import opened Wrappers
  import opened Json
  import opened Records
  import Merge

  /** The properties copied from a record, in output order. `contact` and
      `osm_opening_hours` may be missing (null then); the others must exist. */
  const RequiredKeys: seq<string> :=
    ["name", "status", "authorization_id", "authorization_holder", "operator", "zipCode"]

  /** `pharmacy["geo"][1]`, the regulator's WGS-84 entry. */
  function AfmpsGeo(p: Json): Option<Json> {
    var geo :- Get(p, "geo");
    At(geo, 1)
  }

  /** `[longitude, latitude]` of that entry: GeoJSON puts the longitude first. */
  function Coordinates(p: Json): (r: Option<Json>)
    ensures r.Some? <==>
      && AfmpsGeo(p).Some?
      && Get(AfmpsGeo(p).value, "longitude").Some?
      && Get(AfmpsGeo(p).value, "latitude").Some?
    ensures r.Some? ==>
      && r.value.JArr? && |r.value.items| == 2
      && r.value.items[0] == Get(AfmpsGeo(p).value, "longitude").value
      && r.value.items[1] == Get(AfmpsGeo(p).value, "latitude").value
  {
    var g := AfmpsGeo(p);
    if g.None? then None
    else
      var lon :- Get(g.value, "longitude");
      var lat :- Get(g.value, "latitude");
      Some(JArr([lon, lat]))
  }

  /** The properties object, in output order. */
  function PropertyFields(name: Json, status: Json, contact: Json, hours: Json,
                          id: Json, holder: Json, operator: Json, zip: Json): seq<(string, Json)> {
    [("name", name), ("status", status), ("contact", contact), ("osm_opening_hours", hours),
     ("authorization_id", id), ("authorization_holder", holder), ("operator", operator), ("zipCode", zip)]
  }

  /** Each property is found under its own key. */
  lemma PropertyFieldsLookup(name: Json, status: Json, contact: Json, hours: Json,
                             id: Json, holder: Json, operator: Json, zip: Json)
    ensures var f := PropertyFields(name, status, contact, hours, id, holder, operator, zip);
      && GetField(f, "name") == Some(name)
      && GetField(f, "status") == Some(status)
      && GetField(f, "contact") == Some(contact)
      && GetField(f, "osm_opening_hours") == Some(hours)
      && GetField(f, "authorization_id") == Some(id)
      && GetField(f, "authorization_holder") == Some(holder)
      && GetField(f, "operator") == Some(operator)
      && GetField(f, "zipCode") == Some(zip)
  {
    var f := PropertyFields(name, status, contact, hours, id, holder, operator, zip);
    assert DistinctKeys(f);
    DistinctLookup(f);
    assert f[0] == ("name", name) && f[1] == ("status", status) && f[2] == ("contact", contact);
    assert f[3].0 == "osm_opening_hours";
    assert f[4].0 == "authorization_id";
    assert f[5].0 == "authorization_holder";
    assert f[6].0 == "operator";
    assert f[7].0 == "zipCode";
  }

  /** The `properties` of a feature: the required keys and `contact` and
      `osm_opening_hours` copied from the record, the last two null when
      missing; `None` when a required key is missing. */
  function Properties(p: Json): (r: Option<Json>)
    ensures r.Some? <==> forall i :: 0 <= i < |RequiredKeys| ==> Get(p, RequiredKeys[i]).Some?
    ensures r.Some? ==>
      && Get(r.value, "name") == Get(p, "name")
      && Get(r.value, "status") == Get(p, "status")
      && Get(r.value, "authorization_id") == Get(p, "authorization_id")
      && Get(r.value, "authorization_holder") == Get(p, "authorization_holder")
      && Get(r.value, "operator") == Get(p, "operator")
      && Get(r.value, "zipCode") == Get(p, "zipCode")
    ensures r.Some? ==> Get(r.value, "contact") == Some(Get(p, "contact").GetOr(JNull))
    ensures r.Some? ==> Get(r.value, "osm_opening_hours") == Some(Get(p, "osm_opening_hours").GetOr(JNull))
  {
    assert RequiredKeys[0] == "name" && RequiredKeys[1] == "status" && RequiredKeys[2] == "authorization_id";
    assert RequiredKeys[3] == "authorization_holder" && RequiredKeys[4] == "operator" && RequiredKeys[5] == "zipCode";
    var name :- Get(p, "name");
    var status :- Get(p, "status");
    var id :- Get(p, "authorization_id");
    var holder :- Get(p, "authorization_holder");
    var operator :- Get(p, "operator");
    var zip :- Get(p, "zipCode");
    var contact := Get(p, "contact").GetOr(JNull);
    var hours := Get(p, "osm_opening_hours").GetOr(JNull);
    PropertyFieldsLookup(name, status, contact, hours, id, holder, operator, zip);
    Some(JObj(PropertyFields(name, status, contact, hours, id, holder, operator, zip)))
  }

  /** `generate_feature`; `None` where Python raises (a missing key or a `geo`
      list shorter than two). */
  function Feature(p: Json): (r: Option<Json>)
    ensures r.Some? <==> Coordinates(p).Some? && Properties(p).Some?
    ensures r.Some? ==> Get(r.value, "type") == Some(JStr("Feature"))
    ensures r.Some? ==> Get(r.value, "properties") == Properties(p)
    ensures r.Some? ==>
      && Get(r.value, "geometry").Some?
      && Get(Get(r.value, "geometry").value, "type") == Some(JStr("Point"))
      && Get(Get(r.value, "geometry").value, "coordinates") == Coordinates(p)
  {
    var coordinates :- Coordinates(p);
    var properties :- Properties(p);
    var geometry := [("type", JStr("Point")), ("coordinates", coordinates)];
    var fields := [("type", JStr("Feature")), ("geometry", JObj(geometry)), ("properties", properties)];
    GetFieldAt(geometry, 1);
    GetFieldAt(fields, 1);
    GetFieldAt(fields, 2);
    Some(JObj(fields))
  }

  function Features(ps: seq<Json>): (r: Option<seq<Json>>)
    ensures r.Some? <==> forall i :: 0 <= i < |ps| ==> Feature(ps[i]).Some?
    ensures r.Some? ==> |r.value| == |ps|
    ensures r.Some? ==> forall i :: 0 <= i < |ps| ==> Feature(ps[i]) == Some(r.value[i])
  {
    if forall i :: 0 <= i < |ps| ==> Feature(ps[i]).Some?
    then Some(seq(|ps|, i requires 0 <= i < |ps| => Feature(ps[i]).value))
    else None
  }

  /** `generate_geoJson`: one feature per record, in order. */
  function FeatureCollection(ps: seq<Json>): (r: Option<Json>)
    ensures r.Some? <==> forall i :: 0 <= i < |ps| ==> Feature(ps[i]).Some?
    ensures r.Some? ==> Get(r.value, "type") == Some(JStr("FeatureCollection"))
    ensures r.Some? ==> Get(r.value, "features") == Some(JArr(Features(ps).value))
  {
    var features :- Features(ps);
    var fields := [("type", JStr("FeatureCollection")), ("features", JArr(features))];
    GetFieldAt(fields, 1);
    Some(JObj(fields))
  }

  /** Each base field of a written record is found by its key. */
  lemma BaseField(p: Pharmacy, i: nat)
    requires i < |PharmacyBase(p)|
    ensures GetField(PharmacyJson(p).fields, PharmacyBase(p)[i].0) == Some(PharmacyBase(p)[i].1)
    ensures PharmacyBase(p)[i].1 != JNull
  {
    var base := PharmacyBase(p);
    var fields := PharmacyJson(p).fields;
    assert forall j :: 0 <= j < |base| ==> fields[j] == base[j];
    assert forall j :: 0 <= j < i ==> base[j].0 != base[i].0;
    GetFieldAt(fields, i);
  }

  /** After stripping, each base field is still found by its key. */
  lemma StrippedBaseField(p: Pharmacy, i: nat)
    requires i < |PharmacyBase(p)|
    ensures Get(StripNone(PharmacyJson(p)), PharmacyBase(p)[i].0) == Some(StripNone(PharmacyBase(p)[i].1))
  {
    BaseField(p, i);
    StripKeepsFirst(PharmacyJson(p).fields, PharmacyBase(p)[i].0);
  }

  /** The stripped WGS-84 entry still gives its latitude and longitude. */
  lemma Wgs84EntryLookup(src: string, at: Coord)
    ensures Get(StripNone(GeoEntryJson(Wgs84(src, at))), "latitude") == Some(JNum(at.lat))
    ensures Get(StripNone(GeoEntryJson(Wgs84(src, at))), "longitude") == Some(JNum(at.lon))
  {
    var fields := [("format", JStr("epsg:4326")), ("description", JStr("WGS 84")),
      ("source", JStr(src)), ("latitude", JNum(at.lat)), ("longitude", JNum(at.lon))];
    assert GeoEntryJson(Wgs84(src, at)) == JObj(fields);
    assert DistinctKeys(fields);
    DistinctLookup(fields);
    assert fields[3] == ("latitude", JNum(at.lat)) && fields[4] == ("longitude", JNum(at.lon));
    StripKeepsFirst(fields, "latitude");
    StripKeepsFirst(fields, "longitude");
    assert StripNone(JObj(fields)) == JObj(StripFields(fields));
  }

  /** The exported point of a written record is the regulator's WGS-84
      position `geo[1]`, longitude first, even when the merge appended an
      OpenStreetMap position after it. */
  lemma CoordinatesOfMerged(p: Pharmacy)
    requires AfmpsCoord(p).Some?
    ensures Coordinates(StripNone(PharmacyJson(p)))
      == Some(JArr([JNum(AfmpsCoord(p).value.lon), JNum(AfmpsCoord(p).value.lat)]))
  {
    var j := StripNone(PharmacyJson(p));
    StrippedBaseField(p, 5);
    var items := seq(|p.geo|, i requires 0 <= i < |p.geo| => GeoEntryJson(p.geo[i]));
    assert PharmacyBase(p)[5] == ("geo", JArr(items));
    StripItemsInPlace(items);
    assert AfmpsGeo(j) == Some(StripNone(GeoEntryJson(p.geo[1])));
    Wgs84EntryLookup(p.geo[1].source, p.geo[1].at);
  }

  /** A written record has every property the export requires, with its name
      and zip code unchanged. */
  lemma PropertiesOfMerged(p: Pharmacy)
    ensures Properties(StripNone(PharmacyJson(p))).Some?
    ensures Get(Properties(StripNone(PharmacyJson(p))).value, "name") == Some(JStr(p.name))
    ensures Get(Properties(StripNone(PharmacyJson(p))).value, "zipCode") == Some(JInt(p.zipCode))
  {
    var j := StripNone(PharmacyJson(p));
    StrippedKey(p, 0, "authorization_id");
    StrippedKey(p, 6, "authorization_holder");
    StrippedKey(p, 7, "operator");
    StrippedKey(p, 8, "status");
    StrippedBaseField(p, 1);
    assert Get(j, "name") == Some(JStr(p.name));
    StrippedBaseField(p, 3);
    assert Get(j, "zipCode") == Some(JInt(p.zipCode));
    PropertiesPresent(j);
  }

  /** The `i`-th base field, under key `k`, survives stripping. */
  lemma StrippedKey(p: Pharmacy, i: nat, k: string)
    requires i < |PharmacyBase(p)| && PharmacyBase(p)[i].0 == k
    ensures Get(StripNone(PharmacyJson(p)), k).Some?
  {
    StrippedBaseField(p, i);
  }

  /** A record with every required key has properties. */
  lemma PropertiesPresent(j: Json)
    requires Get(j, "name").Some? && Get(j, "status").Some? && Get(j, "authorization_id").Some?
    requires Get(j, "authorization_holder").Some? && Get(j, "operator").Some? && Get(j, "zipCode").Some?
    ensures Properties(j).Some?
  {
  }

  /** A record the merge wrote is always exported. */
  lemma FeatureOfMerged(p: Pharmacy)
    requires AfmpsCoord(p).Some?
    ensures Feature(StripNone(PharmacyJson(p))).Some?
  {
    CoordinatesOfMerged(p);
    PropertiesOfMerged(p);
  }

  /** The export never fails on the merge's output, and keeps its order. */
  lemma ExportMerged(afmps: seq<Pharmacy>, osm: seq<OsmPharmacy>, dist: Merge.Distance)
    requires Merge.MergedJson(afmps, osm, dist).Success?
    ensures FeatureCollection(Merge.MergedJson(afmps, osm, dist).value).Some?
  {
    var merged := Merge.CombineData(afmps, osm, dist).value;
    var out := Merge.MergedJson(afmps, osm, dist).value;
    forall i | 0 <= i < |out| ensures Feature(out[i]).Some? {
      assert out[i] == StripNone(PharmacyJson(merged[i]));
      FeatureOfMerged(merged[i]);
    }
  }
}
