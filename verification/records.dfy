/** The records the scripts pass between each other: the regulator's (AFMPS)
    pharmacy, the OpenStreetMap pharmacy, their geo-reference entries, and the
    JSON shape each one is written as. */
module Records {
  import opened Wrappers
  import opened Json

  /** A WGS-84 position in degrees. */
  datatype Coord = Coord(lat: real, lon: real)

  /** Python's `<` on the keys `[latitude, longitude]`: lexicographic. */
  predicate CoordLt(a: Coord, b: Coord) {
    a.lat < b.lat || (a.lat == b.lat && a.lon < b.lon)
  }

  const LambertSource: string := "https://www.ngi.be/"
  const AfmpsWgsSource: string := "https://gisgeography.com/wgs84-world-geodetic-system/"
  const OsmSource: string := "https://www.openstreetmap.org/"

  /** One entry of a pharmacy's `geo` list: Belgian Lambert 2008 (epsg:3812)
      or WGS 84 (epsg:4326) with the source it came from. */
  datatype GeoEntry =
    | Lambert2008(x: real, y: real)
    | Wgs84(source: string, at: Coord)

  /** Holder or operator: a name and a KBO-BCE enterprise number, each possibly missing. */
  datatype Party = Party(name: Option<string>, entrepriseNumber: Option<string>)

  datatype NameEntry = NameEntry(lang: Option<string>, value: string)

  /** Opening hours described in one locale by the humaniser. */
  datatype HoursEntry = HoursEntry(lang: string, value: seq<string>)

  datatype Address = Address(
    lang: Option<string>,
    street: Option<string>,
    housenumber: Option<string>,
    unit: Option<string>,
    zipCode: Option<string>,
    city: Option<string>)

  /** The `contact` dictionary, in insertion order. */
  type Contact = seq<(string, Option<string>)>

  /** A pharmacy as extracted from OpenStreetMap. */
  datatype OsmPharmacy = OsmPharmacy(
    names: seq<NameEntry>,
    geo: Coord,
    contact: Contact,
    brand: Option<string>,
    osmOpeningHours: Option<string>,
    openingHours: seq<HoursEntry>,
    addresses: seq<Address>)

  /** The attributes the merge copies from a matched OpenStreetMap pharmacy. */
  datatype OsmAttributes = OsmAttributes(
    names: seq<NameEntry>,
    contact: Contact,
    brand: Option<string>,
    osmOpeningHours: Option<string>,
    openingHours: seq<HoursEntry>,
    addresses: seq<Address>)

  function Attributes(o: OsmPharmacy): OsmAttributes {
    OsmAttributes(o.names, o.contact, o.brand, o.osmOpeningHours, o.openingHours, o.addresses)
  }

  /** A pharmacy as published by the regulator, possibly enriched by the merge
      (`osm` holds the copied attributes, `geo` the appended entry). */
  datatype Pharmacy = Pharmacy(
    authorizationId: int,
    name: string,
    textualAddress: string,
    zipCode: int,
    municipality: string,
    geo: seq<GeoEntry>,
    holder: Party,
    operator: Party,
    status: string,
    osm: Option<OsmAttributes>)

  /** `pharmacy["geo"][1]["latitude"], ...["longitude"]`; `None` where Python raises. */
  function AfmpsCoord(p: Pharmacy): (r: Option<Coord>)
    ensures r.Some? <==> |p.geo| > 1 && p.geo[1].Wgs84?
    ensures r.Some? ==> r.value == p.geo[1].at
  {
    if |p.geo| > 1 && p.geo[1].Wgs84? then Some(p.geo[1].at) else None
  }

  // ----- JSON shape of the records -----

  function OptStr(o: Option<string>): Json {
    match o
    case Some(s) => JStr(s)
    case None => JNull
  }

  function StrList(xs: seq<string>): Json {
    JArr(seq(|xs|, i requires 0 <= i < |xs| => JStr(xs[i])))
  }

  function GeoEntryJson(g: GeoEntry): Json {
    match g
    case Lambert2008(x, y) =>
      JObj([("format", JStr("epsg:3812")), ("description", JStr("Belgian Lambert 2008")),
            ("source", JStr(LambertSource)), ("x", JNum(x)), ("y", JNum(y))])
    case Wgs84(src, at) =>
      JObj([("format", JStr("epsg:4326")), ("description", JStr("WGS 84")),
            ("source", JStr(src)), ("latitude", JNum(at.lat)), ("longitude", JNum(at.lon))])
  }

  function PartyJson(p: Party): Json {
    JObj([("name", OptStr(p.name)), ("entreprise_number", OptStr(p.entrepriseNumber))])
  }

  function NameJson(n: NameEntry): Json {
    JObj([("lang", OptStr(n.lang)), ("value", JStr(n.value))])
  }

  function HoursJson(h: HoursEntry): Json {
    JObj([("lang", JStr(h.lang)), ("value", StrList(h.value))])
  }

  function AddressJson(a: Address): Json {
    JObj([("lang", OptStr(a.lang)), ("street", OptStr(a.street)),
          ("housenumber", OptStr(a.housenumber)), ("unit", OptStr(a.unit)),
          ("zipCode", OptStr(a.zipCode)), ("city", OptStr(a.city))])
  }

  function ContactJson(c: Contact): Json {
    JObj(seq(|c|, i requires 0 <= i < |c| => (c[i].0, OptStr(c[i].1))))
  }

  /** The keys `names` … `addresses` the merge adds to a matched record. */
  function OsmFields(a: OsmAttributes): seq<(string, Json)> {
    [("names", JArr(seq(|a.names|, i requires 0 <= i < |a.names| => NameJson(a.names[i])))),
     ("contact", ContactJson(a.contact)),
     ("brand", OptStr(a.brand)),
     ("osm_opening_hours", OptStr(a.osmOpeningHours)),
     ("opening_hours", JArr(seq(|a.openingHours|, i requires 0 <= i < |a.openingHours| => HoursJson(a.openingHours[i])))),
     ("addresses", JArr(seq(|a.addresses|, i requires 0 <= i < |a.addresses| => AddressJson(a.addresses[i]))))]
  }

  /** The fields every written record has, in order. */
  function PharmacyBase(p: Pharmacy): seq<(string, Json)> {
    [("authorization_id", JInt(p.authorizationId)),
     ("name", JStr(p.name)),
     ("textual_address", JStr(p.textualAddress)),
     ("zipCode", JInt(p.zipCode)),
     ("municipality", JStr(p.municipality)),
     ("geo", JArr(seq(|p.geo|, i requires 0 <= i < |p.geo| => GeoEntryJson(p.geo[i])))),
     ("authorization_holder", PartyJson(p.holder)),
     ("operator", PartyJson(p.operator)),
     ("status", JStr(p.status))]
  }

  function PharmacyJson(p: Pharmacy): Json {
    JObj(PharmacyBase(p) + (match p.osm case Some(a) => OsmFields(a) case None => []))
  }
}
