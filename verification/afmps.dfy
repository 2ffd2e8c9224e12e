/** The row-to-record mapping of `extract_pharmacies_from_afmps` in
    `pharmaciesFromAFMPS.py`. Reading the spreadsheet is left to the caller: a
    row arrives with its cells already typed, a missing status cell as `None`.
    The Lambert 2008 to WGS 84 projection is the parameter `toWgs84`. */
module Afmps {
  import opened Wrappers
  import opened Records
  import opened Patterns

  /** One spreadsheet row, columns renamed as the script does. */
  datatype Row = Row(
    authorizationId: int,
    name: string,
    textualAddress: string,
    zipCode: int,
    municipality: string,
    status: Option<string>,
    holder: string,
    operator: string,
    lambertX: real,
    lambertY: real)

  /** `lambert_2008_2_wgs_84`: (x, y) to (latitude, longitude). */
  type Projection = (real, real) -> Coord

  /** `{"name": info.get("name"), "entreprise_number": info.get("cbe")}`. */
  function PartyOf(info: Option<(string, string)>): (r: Party)
    ensures info.None? ==> r == Party(None, None)
    ensures info.Some? ==> r.name == Some(info.value.0) && r.entrepriseNumber == Some(info.value.1)
  {
    match info
    case Some((n, c)) => Party(Some(n), Some(c))
    case None => Party(None, None)
  }

  /** An empty status cell means active; anything else a temporary suspension. */
  function StatusOf(cell: Option<string>): (r: string)
    ensures r == "ACTIVE" <==> cell.None?
    ensures r == "TEMPORARILY_SUSPENDED" <==> cell.Some?
  {
    if cell.None? then "ACTIVE" else "TEMPORARILY_SUSPENDED"
  }

  /** The record built for one row. */
  function BuildPharmacy(row: Row, toWgs84: Projection): (p: Pharmacy)
    ensures |p.geo| == 2
    ensures p.geo[0] == Lambert2008(row.lambertX, row.lambertY)
    ensures p.geo[1] == Wgs84(AfmpsWgsSource, toWgs84(row.lambertX, row.lambertY))
    ensures p.holder == PartyOf(MatchKbo(row.holder))
    ensures p.operator == PartyOf(if MatchKbo(row.operator).Some? then MatchKbo(row.operator) else MatchKbo(row.holder))
    ensures p.status == StatusOf(row.status)
    ensures p.osm.None?
    ensures p.authorizationId == row.authorizationId && p.zipCode == row.zipCode
      && p.name == row.name && p.municipality == row.municipality
      && p.textualAddress == row.textualAddress
  {
    var at := toWgs84(row.lambertX, row.lambertY);
    var holderInfo := MatchKbo(row.holder);
    var operatorMatch := MatchKbo(row.operator);
    var operatorInfo := if operatorMatch.Some? then operatorMatch else holderInfo;
    Pharmacy(
      row.authorizationId, row.name, row.textualAddress, row.zipCode, row.municipality,
      [Lambert2008(row.lambertX, row.lambertY), Wgs84(AfmpsWgsSource, at)],
      PartyOf(holderInfo), PartyOf(operatorInfo), StatusOf(row.status), None)
  }

  /** The update date in the footer, or today's date (`dd-mm-YYYY`, a parameter). */
  function UpdateDate(footer: string, today: string): (r: string)
    ensures SearchUpdate(footer).Some? ==> r == SearchUpdate(footer).value
    ensures SearchUpdate(footer).None? ==> r == today
  {
    match SearchUpdate(footer)
    case Some(d) => d
    case None => today
  }

  /** `extract_pharmacies_from_afmps`: the update date and one record per row, in row order. */
  function ExtractAfmps(rows: seq<Row>, footer: string, today: string, toWgs84: Projection)
    : (r: (string, seq<Pharmacy>))
    ensures r.0 == UpdateDate(footer, today)
    ensures |r.1| == |rows|
    ensures forall i :: 0 <= i < |rows| ==> r.1[i] == BuildPharmacy(rows[i], toWgs84)
  {
    (UpdateDate(footer, today),
     seq(|rows|, i requires 0 <= i < |rows| => BuildPharmacy(rows[i], toWgs84)))
  }

  /** A holder cell "N (KBO-BCE : C)" gives name N and enterprise number C; an
      operator cell without the pattern (such as "Idem") takes the holder's. */
  lemma HolderAndOperator(row: Row, toWgs84: Projection, n: string, c: string)
    requires |n| >= 1 && NoNewline(n)
    requires |c| >= 1 && NoNewline(c) && '(' !in c
    requires row.holder == KboText(n, c)
    requires '(' !in row.operator
    ensures BuildPharmacy(row, toWgs84).holder == Party(Some(n), Some(c))
    ensures BuildPharmacy(row, toWgs84).operator == Party(Some(n), Some(c))
  {
    KboRoundTrip(n, c);
    KboNeedsParen(row.operator);
  }

  /** A holder cell without the pattern leaves name and number empty. */
  lemma HolderWithoutPattern(row: Row, toWgs84: Projection)
    requires '(' !in row.holder
    ensures BuildPharmacy(row, toWgs84).holder == Party(None, None)
  {
    KboNeedsParen(row.holder);
  }

  /** Every extracted record carries the WGS-84 `geo[1]` the merge sorts on. */
  lemma ExtractHasWgs84(rows: seq<Row>, footer: string, today: string, toWgs84: Projection, i: nat)
    requires i < |rows|
    ensures AfmpsCoord(ExtractAfmps(rows, footer, today, toWgs84).1[i])
      == Some(toWgs84(rows[i].lambertX, rows[i].lambertY))
  {
  }

  /** The footer "...(... update : D)" gives D; a footer without it gives today. */
  lemma UpdateDateCases(pre: string, mid: string, d: string, today: string, other: string)
    requires '(' !in pre && NoNewline(mid)
    requires |d| >= 1 && NoNewline(d) && ':' !in d
    requires '(' !in other
    ensures UpdateDate(FooterText(pre, mid, d), today) == d
    ensures UpdateDate(other, today) == today
  {
    UpdateRoundTrip(pre, mid, d);
    UpdateNeedsParen(other);
  }
}
