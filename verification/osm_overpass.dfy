/** `extract_pharmacies` of `pharmaciesFromOSM.py`: Overpass nodes and ways to
    OpenStreetMap pharmacy records. The Overpass query itself is left to the
    caller; an element arrives with its tags and coordinates. */
module OsmOverpass {
  import opened Wrappers
  import opened Records
  import opened OsmTags

  /** An element of the Overpass result: a node has a position, a way the
      positions of its nodes. */
  datatype Element =
    | Node(tags: Tags, at: Coord)
    | Way(tags: Tags, nodes: seq<Coord>)

  /** A node's own position; a way's first node. `None` where Python raises
      (a way without nodes). */
  function Position(e: Element): (r: Option<Coord>)
    ensures e.Node? ==> r == Some(e.at)
    ensures e.Way? ==> (r.Some? <==> |e.nodes| > 0)
    ensures e.Way? && r.Some? ==> r.value == e.nodes[0]
  {
    match e
    case Node(_, at) => Some(at)
    case Way(_, nodes) => if |nodes| > 0 then Some(nodes[0]) else None
  }

  /** The record of one element. */
  function Extract(e: Element, humanise: Humaniser): (r: Option<OsmPharmacy>)
    ensures r.Some? <==> Position(e).Some?
    ensures r.Some? ==>
      && r.value.geo == Position(e).value
      && r.value.names == NameList(e.tags)
      && r.value.contact == FullContact(e.tags, ContactTags)
      && r.value.brand == Tag(e.tags, "brand")
      && r.value.osmOpeningHours == Tag(e.tags, "opening_hours")
      && r.value.openingHours == OpeningHours(e.tags, humanise)
      && r.value.addresses == Addresses(e.tags)
  {
    var at :- Position(e);
    Some(OsmPharmacy(
      NameList(e.tags), at, FullContact(e.tags, ContactTags), Tag(e.tags, "brand"),
      Tag(e.tags, "opening_hours"), OpeningHours(e.tags, humanise), Addresses(e.tags)))
  }

  /** All records, in element order; `None` when any element has no position. */
  function ExtractAll(es: seq<Element>, humanise: Humaniser): (r: Option<seq<OsmPharmacy>>)
    ensures r.None? <==> exists i :: 0 <= i < |es| && Position(es[i]).None?
    ensures r.Some? ==> |r.value| == |es|
    ensures r.Some? ==> forall i :: 0 <= i < |es| ==> Extract(es[i], humanise) == Some(r.value[i])
  {
    if forall i :: 0 <= i < |es| ==> Position(es[i]).Some?
    then Some(seq(|es|, i requires 0 <= i < |es| => Extract(es[i], humanise).value))
    else None
  }

  /** Every record's contact carries all four keys, phone first; the website
      is missing only when none of its three tags is set. */
  /** The Overpass contact: always the four keys phone, email, fax and website,
      each with its `contact:` tag before the plain one, and the website falling
      back to `website` and then `url`. */
  lemma ContactShape(tags: Tags)
    ensures |FullContact(tags, ContactTags)| == 4
    ensures FullContact(tags, ContactTags)[0].0 == "phone"
    ensures FullContact(tags, ContactTags)[1].0 == "email"
    ensures FullContact(tags, ContactTags)[2].0 == "fax"
    ensures FullContact(tags, ContactTags)[3].0 == "website"
    ensures FullContact(tags, ContactTags)[0].1 ==
      if Tag(tags, "contact:phone").Some? then Tag(tags, "contact:phone") else Tag(tags, "phone")
    ensures FullContact(tags, ContactTags)[1].1 ==
      if Tag(tags, "contact:email").Some? then Tag(tags, "contact:email") else Tag(tags, "email")
    ensures FullContact(tags, ContactTags)[2].1 ==
      if Tag(tags, "contact:fax").Some? then Tag(tags, "contact:fax") else Tag(tags, "fax")
    ensures FullContact(tags, ContactTags)[3].1 ==
      if Tag(tags, "contact:website").Some? then Tag(tags, "contact:website")
      else if Tag(tags, "website").Some? then Tag(tags, "website")
      else Tag(tags, "url")
  {
    var c := FullContact(tags, ContactTags);
    FirstOfTwo(tags, "contact:phone", "phone");
    FirstOfTwo(tags, "contact:email", "email");
    FirstOfTwo(tags, "contact:fax", "fax");
    FirstOfThree(tags, "contact:website", "website", "url");
    assert ContactTags[0].1 == ["contact:phone", "phone"];
    assert ContactTags[1].1 == ["contact:email", "email"];
    assert ContactTags[2].1 == ["contact:fax", "fax"];
    assert ContactTags[3].1 == ["contact:website", "website", "url"];
  }

  /** The first present value of two tags. */
  lemma FirstOfTwo(tags: Tags, a: string, b: string)
    ensures FindFirstNotNone(tags, [a, b]) == if Tag(tags, a).Some? then Tag(tags, a) else Tag(tags, b)
  {
    var keys := [a, b];
    var r := FindFirstNotNone(tags, keys);
    if r.Some? {
      var i :| 0 <= i < |keys| && Tag(tags, keys[i]) == r && forall j :: 0 <= j < i ==> Tag(tags, keys[j]).None?;
      if i == 1 { assert Tag(tags, keys[0]).None?; }
    } else {
      assert Tag(tags, keys[0]).None? && Tag(tags, keys[1]).None?;
    }
  }

  /** The first present value of three tags. */
  lemma FirstOfThree(tags: Tags, a: string, b: string, c: string)
    ensures FindFirstNotNone(tags, [a, b, c]) ==
      if Tag(tags, a).Some? then Tag(tags, a) else if Tag(tags, b).Some? then Tag(tags, b) else Tag(tags, c)
  {
    var keys := [a, b, c];
    var r := FindFirstNotNone(tags, keys);
    if r.Some? {
      var i :| 0 <= i < |keys| && Tag(tags, keys[i]) == r && forall j :: 0 <= j < i ==> Tag(tags, keys[j]).None?;
      if i >= 1 { assert Tag(tags, keys[0]).None?; }
      if i == 2 { assert Tag(tags, keys[1]).None?; }
    } else {
      assert Tag(tags, keys[0]).None? && Tag(tags, keys[1]).None? && Tag(tags, keys[2]).None?;
    }
  }
}
