/** The tag helpers shared by both OpenStreetMap extractors
    (`pharmaciesFromOSM.py` and `scripts/pharmaciesFromOSM.py`): localised tag
    lookup, first present tag, and the name, opening-hours and address lists.
    The two files define the same helpers with the same behaviour; they are
    modelled once here. The opening-hours humaniser is the parameter `humanise`. */
module OsmTags {
  import opened Wrappers
  import opened Records

  /** The tags of one element; a tag may be present with no value. */
  type Tags = map<string, Option<string>>

  /** `(opening_hours, locale)` to the humanised description; a parse failure
      gives the empty list inside it. */
  type Humaniser = (string, string) -> seq<string>

  /** `pharmacy.get(key, None)` / `pharmacy.tag(key)`. */
  function Tag(t: Tags, k: string): (r: Option<string>)
    ensures k !in t ==> r.None?
  {
    if k in t then t[k] else None
  }

  /** Python truthiness of a tag value: present and not empty. */
  predicate Truthy(v: Option<string>) {
    v.Some? && |v.value| > 0
  }

  function LocalisedKey(key: string, lang: Option<string>): string {
    match lang
    case Some(l) => key + ":" + l
    case None => key
  }

  /** `access_localised_tag`: `key:lang` with a language, plain `key` without. */
  function AccessLocalisedTag(t: Tags, key: string, lang: Option<string>): (r: Option<string>)
    ensures lang.Some? ==> r == Tag(t, key + ":" + lang.value)
    ensures lang.None? ==> r == Tag(t, key)
  {
    Tag(t, LocalisedKey(key, lang))
  }

  /** `find_first_not_none`: the value of the first key, in list order, whose
      tag is not `None`. */
  function FindFirstNotNone(t: Tags, keys: seq<string>): (r: Option<string>)
    ensures r.None? <==> forall i :: 0 <= i < |keys| ==> Tag(t, keys[i]).None?
    ensures r.Some? ==>
      exists i :: 0 <= i < |keys| && Tag(t, keys[i]) == r && forall j :: 0 <= j < i ==> Tag(t, keys[j]).None?
  {
    if |keys| == 0 then None
    else if Tag(t, keys[0]).Some? then Tag(t, keys[0])
    else
      var r := FindFirstNotNone(t, keys[1..]);
      assert r.Some? ==>
        exists i :: 1 <= i < |keys| && Tag(t, keys[i]) == r && forall j :: 0 <= j < i ==> Tag(t, keys[j]).None?
      by {
        if r.Some? {
          var i :| 0 <= i < |keys[1..]| && Tag(t, keys[1..][i]) == r
            && forall j :: 0 <= j < i ==> Tag(t, keys[1..][j]).None?;
          assert forall j :: 0 <= j < i + 1 ==> Tag(t, keys[j]).None? by {
            forall j | 0 <= j < i + 1 ensures Tag(t, keys[j]).None? {
              if j > 0 { assert keys[j] == keys[1..][j - 1]; }
            }
          }
          assert Tag(t, keys[i + 1]) == r;
        }
      }
      r
  }

  /** The contact dictionary of the Overpass extractor: every key, in this order,
      with the first present value among its tags. */
  const ContactTags: seq<(string, seq<string>)> := [
    ("phone", ["contact:phone", "phone"]),
    ("email", ["contact:email", "email"]),
    ("fax", ["contact:fax", "fax"]),
    ("website", ["contact:website", "website", "url"])
  ]

  /** The contact dictionary of the Overpass extractor: every key of `specs`,
      in order, with the first present value among its tags (possibly none). */
  function FullContact(t: Tags, specs: seq<(string, seq<string>)>): (r: Contact)
    ensures |r| == |specs|
    ensures forall i :: 0 <= i < |r| ==> r[i].0 == specs[i].0
    ensures forall i :: 0 <= i < |r| ==>
      (r[i].1.None? <==> forall j :: 0 <= j < |specs[i].1| ==> Tag(t, specs[i].1[j]).None?)
    ensures forall i :: 0 <= i < |r| ==> r[i].1 == FindFirstNotNone(t, specs[i].1)
  {
    seq(|specs|, i requires 0 <= i < |specs| => (specs[i].0, FindFirstNotNone(t, specs[i].1)))
  }

  /** The contact dictionary of the GeoDataFrame extractor: a key is set only
      when its first present value is truthy. */
  function ExtractContact(t: Tags, specs: seq<(string, seq<string>)>): (r: Contact)
    ensures |r| <= |specs|
    ensures forall i :: 0 <= i < |r| ==> Truthy(r[i].1)
    ensures forall i :: 0 <= i < |r| ==>
      exists k :: 0 <= k < |specs| && specs[k].0 == r[i].0 && FindFirstNotNone(t, specs[k].1) == r[i].1
    decreases |specs|
  {
    if |specs| == 0 then []
    else
      var v := FindFirstNotNone(t, specs[0].1);
      var rest := ExtractContact(t, specs[1..]);
      assert forall i :: 0 <= i < |rest| ==>
        exists k :: 0 <= k < |specs| && specs[k].0 == rest[i].0 && FindFirstNotNone(t, specs[k].1) == rest[i].1
      by {
        forall i | 0 <= i < |rest|
          ensures exists k :: 0 <= k < |specs| && specs[k].0 == rest[i].0 && FindFirstNotNone(t, specs[k].1) == rest[i].1
        {
          var k :| 0 <= k < |specs[1..]| && specs[1..][k].0 == rest[i].0
            && FindFirstNotNone(t, specs[1..][k].1) == rest[i].1;
          assert specs[k + 1] == specs[1..][k];
        }
      }
      if Truthy(v) then [(specs[0].0, v)] + rest else rest
  }

  /** The entries of a contact dictionary whose value is truthy, in order. */
  function TruthyEntries(c: Contact): (r: Contact)
    ensures |r| <= |c|
    ensures forall i :: 0 <= i < |r| ==> Truthy(r[i].1) && r[i] in c
    ensures forall e :: e in c && Truthy(e.1) ==> e in r
  {
    if |c| == 0 then []
    else if Truthy(c[0].1) then [c[0]] + TruthyEntries(c[1..])
    else TruthyEntries(c[1..])
  }

  /** Filtering works piecewise, so the kept entries keep their input order. */
  lemma {:induction false} TruthyEntriesAppend(a: Contact, b: Contact)
    ensures TruthyEntries(a + b) == TruthyEntries(a) + TruthyEntries(b)
    decreases |a|
  {
    if |a| > 0 {
      assert (a + b)[0] == a[0];
      assert (a + b)[1..] == a[1..] + b;
      TruthyEntriesAppend(a[1..], b);
    } else {
      assert a + b == b;
    }
  }

  /** A single entry is kept exactly when its value is truthy. */
  lemma TruthyEntriesSingle(e: (string, Option<string>))
    ensures TruthyEntries([e]) == if Truthy(e.1) then [e] else []
  {
    assert [e][1..] == [];
  }

  /** Every key whose first present value is truthy is set, with that value. */
  lemma ExtractContactComplete(t: Tags, specs: seq<(string, seq<string>)>)
    ensures forall k :: 0 <= k < |specs| && Truthy(FindFirstNotNone(t, specs[k].1)) ==>
      (specs[k].0, FindFirstNotNone(t, specs[k].1)) in ExtractContact(t, specs)
  {
    ContactsAgree(t, specs);
    var full := FullContact(t, specs);
    forall k | 0 <= k < |specs| && Truthy(FindFirstNotNone(t, specs[k].1))
      ensures (specs[k].0, FindFirstNotNone(t, specs[k].1)) in ExtractContact(t, specs)
    {
      assert full[k] == (specs[k].0, FindFirstNotNone(t, specs[k].1));
      assert full[k] in full;
    }
  }

  /** The keys are handled one after the other: the entries of earlier keys
      come before those of later ones. */
  lemma ExtractContactAppend(t: Tags, a: seq<(string, seq<string>)>, b: seq<(string, seq<string>)>)
    ensures ExtractContact(t, a + b) == ExtractContact(t, a) + ExtractContact(t, b)
  {
    var fa, fb, fab := FullContact(t, a), FullContact(t, b), FullContact(t, a + b);
    assert fab == fa + fb by {
      forall i | 0 <= i < |fab| ensures fab[i] == (fa + fb)[i] {
        if i < |a| { assert (a + b)[i] == a[i]; } else { assert (a + b)[i] == b[i - |a|]; }
      }
    }
    ContactsAgree(t, a + b);
    ContactsAgree(t, a);
    ContactsAgree(t, b);
    TruthyEntriesAppend(fa, fb);
  }

  /** The two extractors agree on contacts: the GeoDataFrame one keeps exactly
      the truthy entries of the Overpass one, in the same order. */
  lemma {:induction false} ContactsAgree(t: Tags, specs: seq<(string, seq<string>)>)
    ensures ExtractContact(t, specs) == TruthyEntries(FullContact(t, specs))
    decreases |specs|
  {
    if |specs| > 0 {
      ContactsAgree(t, specs[1..]);
      assert FullContact(t, specs)[1..] == FullContact(t, specs[1..]);
    }
  }

  /** `LANGUAGES`: French, Dutch, then the untranslated tag. */
  const Languages: seq<Option<string>> := [Some("fr"), Some("nl"), None]

  /** The locales the opening hours are described in. */
  const HoursLocales: seq<string> := ["fr", "nl", "de"]

  function LangRank(lang: Option<string>): nat {
    if lang == Some("fr") then 0 else if lang == Some("nl") then 1 else if lang == None then 2 else 3
  }

  lemma LanguagesDistinct()
    ensures forall k :: 0 <= k < |Languages| ==> LangRank(Languages[k]) == k
  {
  }

  /** Three per-language parts of at most one element each, tagged with the
      language of their position: their concatenation lists the languages
      present, once each, in the order of `Languages`. */
  lemma Localised<X>(a: seq<X>, b: seq<X>, c: seq<X>, r: seq<X>, langOf: X -> Option<string>)
    requires |a| <= 1 && |b| <= 1 && |c| <= 1 && r == a + b + c
    requires forall i :: 0 <= i < |a| ==> langOf(a[i]) == Languages[0]
    requires forall i :: 0 <= i < |b| ==> langOf(b[i]) == Languages[1]
    requires forall i :: 0 <= i < |c| ==> langOf(c[i]) == Languages[2]
    requires forall k :: 0 <= k < |Languages| ==> LangRank(Languages[k]) == k
    ensures forall i :: 0 <= i < |r| ==>
      LangRank(langOf(r[i])) < 3 && Languages[LangRank(langOf(r[i]))] == langOf(r[i])
    ensures forall i, j :: 0 <= i < j < |r| ==> LangRank(langOf(r[i])) < LangRank(langOf(r[j]))
  {
    forall i | 0 <= i < |r|
      ensures LangRank(langOf(r[i])) == (if i < |a| then 0 else if i < |a| + |b| then 1 else 2)
    {
      if i < |a| { assert r[i] == a[i]; }
      else if i < |a| + |b| { assert r[i] == b[i - |a|]; }
      else { assert r[i] == c[i - |a| - |b|]; }
    }
  }

  /** A property every element of the three parts has, every element of
      their concatenation has. */
  lemma LocalisedEach<X>(a: seq<X>, b: seq<X>, c: seq<X>, r: seq<X>, ok: X -> bool)
    requires r == a + b + c
    requires forall i :: 0 <= i < |a| ==> ok(a[i])
    requires forall i :: 0 <= i < |b| ==> ok(b[i])
    requires forall i :: 0 <= i < |c| ==> ok(c[i])
    ensures forall i :: 0 <= i < |r| ==> ok(r[i])
  {
    forall i | 0 <= i < |r| ensures ok(r[i]) {
      if i < |a| { assert r[i] == a[i]; }
      else if i < |a| + |b| { assert r[i] == b[i - |a|]; }
      else { assert r[i] == c[i - |a| - |b|]; }
    }
  }

  /** Which languages the concatenation lists: those whose part is not empty. */
  lemma LocalisedPresence<X>(a: seq<X>, b: seq<X>, c: seq<X>, r: seq<X>, langOf: X -> Option<string>)
    requires |a| <= 1 && |b| <= 1 && |c| <= 1 && r == a + b + c
    requires forall i :: 0 <= i < |a| ==> langOf(a[i]) == Languages[0]
    requires forall i :: 0 <= i < |b| ==> langOf(b[i]) == Languages[1]
    requires forall i :: 0 <= i < |c| ==> langOf(c[i]) == Languages[2]
    requires forall k :: 0 <= k < |Languages| ==> LangRank(Languages[k]) == k
    ensures forall k :: 0 <= k < |Languages| ==>
      ((exists i :: 0 <= i < |r| && langOf(r[i]) == Languages[k]) <==> |[a, b, c][k]| == 1)
  {
    forall i | 0 <= i < |r|
      ensures LangRank(langOf(r[i])) == (if i < |a| then 0 else if i < |a| + |b| then 1 else 2)
    {
      if i < |a| { assert r[i] == a[i]; }
      else if i < |a| + |b| { assert r[i] == b[i - |a|]; }
      else { assert r[i] == c[i - |a| - |b|]; }
    }
    if |a| == 1 { assert langOf(r[0]) == Languages[0]; }
    if |b| == 1 { assert langOf(r[|a|]) == Languages[1]; }
    if |c| == 1 { assert langOf(r[|a| + |b|]) == Languages[2]; }
  }

  function NameIn(t: Tags, lang: Option<string>): (r: seq<NameEntry>)
    ensures |r| <= 1
    ensures |r| == 1 <==> AccessLocalisedTag(t, "name", lang).Some?
    ensures |r| == 1 ==> r[0] == NameEntry(lang, AccessLocalisedTag(t, "name", lang).value)
    ensures forall i :: 0 <= i < |r| ==> r[i].lang == lang
  {
    match AccessLocalisedTag(t, "name", lang)
    case Some(v) => [NameEntry(lang, v)]
    case None => []
  }

  /** The `name` list: one entry per language whose name tag exists, in the
      order French, Dutch, untranslated. */
  function NameList(t: Tags): seq<NameEntry> {
    NameIn(t, Languages[0]) + NameIn(t, Languages[1]) + NameIn(t, Languages[2])
  }

  /** Each entry of the name list is the name tag of its own language. */
  lemma NameListEntries(t: Tags)
    ensures forall i :: 0 <= i < |NameList(t)| ==>
      NameList(t)[i].lang in Languages && AccessLocalisedTag(t, "name", NameList(t)[i].lang) == Some(NameList(t)[i].value)
  {
    var a, b, c := NameIn(t, Languages[0]), NameIn(t, Languages[1]), NameIn(t, Languages[2]);
    LocalisedEach(a, b, c, NameList(t),
      (e: NameEntry) => e.lang in Languages && AccessLocalisedTag(t, "name", e.lang) == Some(e.value));
  }

  /** A language is listed exactly when its name tag exists. */
  lemma NameListPresence(t: Tags)
    ensures forall k :: 0 <= k < |Languages| ==>
      (AccessLocalisedTag(t, "name", Languages[k]).Some?
       <==> exists i :: 0 <= i < |NameList(t)| && NameList(t)[i].lang == Languages[k])
  {
    var a, b, c := NameIn(t, Languages[0]), NameIn(t, Languages[1]), NameIn(t, Languages[2]);
    var r := NameList(t);
    LanguagesDistinct();
    LocalisedPresence(a, b, c, r, (e: NameEntry) => e.lang);
    forall k | 0 <= k < |Languages|
      ensures AccessLocalisedTag(t, "name", Languages[k]).Some? <==> exists i :: 0 <= i < |r| && r[i].lang == Languages[k]
    {
      if k == 0 {
        assert [a, b, c][k] == a;
      } else if k == 1 {
        assert [a, b, c][k] == b;
      } else {
        assert [a, b, c][k] == c;
      }
    }
  }

  /** The name list follows the order French, Dutch, untranslated. */
  lemma NameListOrder(t: Tags)
    ensures forall i, j :: 0 <= i < j < |NameList(t)| ==> LangRank(NameList(t)[i].lang) < LangRank(NameList(t)[j].lang)
  {
    var a, b, c := NameIn(t, Languages[0]), NameIn(t, Languages[1]), NameIn(t, Languages[2]);
    LanguagesDistinct();
    Localised(a, b, c, NameList(t), (e: NameEntry) => e.lang);
  }


  /** The `opening_hours` list: one description per locale fr, nl, de when the
      tag exists and is not "closed", none otherwise. */
  function OpeningHours(t: Tags, humanise: Humaniser): (r: seq<HoursEntry>)
    ensures |r| == 3 <==> Tag(t, "opening_hours").Some? && Tag(t, "opening_hours").value != "closed"
    ensures |r| == 0 || |r| == 3
    ensures forall i :: 0 <= i < |r| ==>
      r[i].lang == HoursLocales[i] && r[i].value == humanise(Tag(t, "opening_hours").value, HoursLocales[i])
  {
    match Tag(t, "opening_hours")
    case Some(v) =>
      if v != "closed" then
        seq(3, i requires 0 <= i < 3 => HoursEntry(HoursLocales[i], humanise(v, HoursLocales[i])))
      else []
    case None => []
  }

  /** The language used to read a localised address field: the element's own
      language when its `key:lang` tag is truthy, otherwise the general key. */
  function FieldLang(t: Tags, key: string, lang: Option<string>): Option<string> {
    if lang.Some? && Truthy(Tag(t, key + ":" + lang.value)) then lang else None
  }

  function AddressFor(t: Tags, lang: Option<string>): Address {
    Address(
      lang,
      AccessLocalisedTag(t, "addr:street", FieldLang(t, "addr:street", lang)),
      Tag(t, "addr:housenumber"),
      Tag(t, "addr:unit"),
      Tag(t, "addr:postcode"),
      AccessLocalisedTag(t, "addr:city", FieldLang(t, "addr:city", lang)))
  }

  function AddressIn(t: Tags, lang: Option<string>): (r: seq<Address>)
    ensures |r| <= 1
    ensures |r| == 1 <==> AccessLocalisedTag(t, "addr:street", lang).Some?
    ensures |r| == 1 ==> r[0] == AddressFor(t, lang)
    ensures forall i :: 0 <= i < |r| ==> r[i].lang == lang
  {
    if AccessLocalisedTag(t, "addr:street", lang).Some? then [AddressFor(t, lang)] else []
  }

  /** The `addresses` list: one entry per language whose street tag exists,
      in the order French, Dutch, untranslated. */
  function Addresses(t: Tags): seq<Address> {
    AddressIn(t, Languages[0]) + AddressIn(t, Languages[1]) + AddressIn(t, Languages[2])
  }

  /** Each address is the one built for its own language. */
  lemma AddressesEntries(t: Tags)
    ensures forall i :: 0 <= i < |Addresses(t)| ==>
      Addresses(t)[i].lang in Languages && Addresses(t)[i] == AddressFor(t, Addresses(t)[i].lang)
  {
    var a, b, c := AddressIn(t, Languages[0]), AddressIn(t, Languages[1]), AddressIn(t, Languages[2]);
    LocalisedEach(a, b, c, Addresses(t), (e: Address) => e.lang in Languages && e == AddressFor(t, e.lang));
  }

  /** A language has an address exactly when its street tag exists. */
  lemma AddressesPresence(t: Tags)
    ensures forall k :: 0 <= k < |Languages| ==>
      (AccessLocalisedTag(t, "addr:street", Languages[k]).Some?
       <==> exists i :: 0 <= i < |Addresses(t)| && Addresses(t)[i].lang == Languages[k])
  {
    var a, b, c := AddressIn(t, Languages[0]), AddressIn(t, Languages[1]), AddressIn(t, Languages[2]);
    var r := Addresses(t);
    LanguagesDistinct();
    LocalisedPresence(a, b, c, r, (e: Address) => e.lang);
    forall k | 0 <= k < |Languages|
      ensures AccessLocalisedTag(t, "addr:street", Languages[k]).Some? <==> exists i :: 0 <= i < |r| && r[i].lang == Languages[k]
    {
      if k == 0 {
        assert [a, b, c][k] == a;
      } else if k == 1 {
        assert [a, b, c][k] == b;
      } else {
        assert [a, b, c][k] == c;
      }
    }
  }

  /** The addresses follow the order French, Dutch, untranslated. */
  lemma AddressesOrder(t: Tags)
    ensures forall i, j :: 0 <= i < j < |Addresses(t)| ==> LangRank(Addresses(t)[i].lang) < LangRank(Addresses(t)[j].lang)
  {
    var a, b, c := AddressIn(t, Languages[0]), AddressIn(t, Languages[1]), AddressIn(t, Languages[2]);
    LanguagesDistinct();
    Localised(a, b, c, Addresses(t), (e: Address) => e.lang);
  }


  /** An address's city is the localised city when that tag is truthy, the
      general `addr:city` otherwise; its street likewise, so a present but empty
      localised street still yields an address, with the general street. */
  lemma AddressFallback(t: Tags, lang: string)
    ensures AddressFor(t, Some(lang)).city ==
      (if Truthy(Tag(t, "addr:city:" + lang)) then Tag(t, "addr:city:" + lang) else Tag(t, "addr:city"))
    ensures AddressFor(t, Some(lang)).street ==
      (if Truthy(Tag(t, "addr:street:" + lang)) then Tag(t, "addr:street:" + lang) else Tag(t, "addr:street"))
  {
    assert "addr:city" + ":" + lang == "addr:city:" + lang;
    assert "addr:street" + ":" + lang == "addr:street:" + lang;
  }
}
