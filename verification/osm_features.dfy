/** `extract_pharmacies` of `scripts/pharmaciesFromOSM.py`: rows of the
    OpenStreetMap feature table to pharmacy records. Fetching the table and the
    centroid computation are left to the caller; a row arrives with its tags and
    the centroid of its geometry. */
module OsmFeatures {
  import opened Records
  import opened Wrappers
  import opened OsmTags
  import OsmOverpass

  /** A centroid in the table's planar axes: `x` is the longitude, `y` the latitude. */
  datatype Point = Point(x: real, y: real)

  datatype Row = Row(tags: Tags, centroid: Point)

  /** `extract_coordinates`: the centroid, with latitude taken from `y`. */
  function CentroidCoord(p: Point): (r: Coord)
    ensures r.lat == p.y && r.lon == p.x
  {
    Coord(p.y, p.x)
  }

  /** The record of one row. */
  function Extract(row: Row, humanise: Humaniser): (r: OsmPharmacy)
    ensures r.geo.lat == row.centroid.y && r.geo.lon == row.centroid.x
    ensures r.contact == ExtractContact(row.tags, ContactTags)
    ensures r.names == NameList(row.tags) && r.addresses == Addresses(row.tags)
    ensures r.openingHours == OpeningHours(row.tags, humanise)
    ensures r.brand == Tag(row.tags, "brand") && r.osmOpeningHours == Tag(row.tags, "opening_hours")
  {
    OsmPharmacy(
      NameList(row.tags), CentroidCoord(row.centroid), ExtractContact(row.tags, ContactTags),
      Tag(row.tags, "brand"), Tag(row.tags, "opening_hours"), OpeningHours(row.tags, humanise),
      Addresses(row.tags))
  }

  /** All records, in row order. */
  function ExtractAll(rows: seq<Row>, humanise: Humaniser): (r: seq<OsmPharmacy>)
    ensures |r| == |rows|
    ensures forall i :: 0 <= i < |rows| ==> r[i] == Extract(rows[i], humanise)
  {
    seq(|rows|, i requires 0 <= i < |rows| => Extract(rows[i], humanise))
  }

  /** The two extractors give the same record for the same tags and position,
      except that this one drops contact keys whose value is missing or empty. */
  lemma SameAsOverpass(row: Row, e: OsmOverpass.Element, humanise: Humaniser)
    requires e.tags == row.tags && OsmOverpass.Position(e) == Some(CentroidCoord(row.centroid))
    ensures OsmOverpass.Extract(e, humanise).Some?
    ensures Extract(row, humanise)
      == OsmOverpass.Extract(e, humanise).value.(contact := TruthyEntries(OsmOverpass.Extract(e, humanise).value.contact))
  {
    ContactsAgree(row.tags, ContactTags);
  }
}
