# pharmacies_BE in Dafny

A model of the data pipeline of `pharmacies_BE`. The pipeline joins two lists of Belgian pharmacies:

- the list published by the medicines regulator (AFMPS), read from a spreadsheet;
- the pharmacies of OpenStreetMap (OSM), read either from Overpass nodes and ways or from an OSM feature table.

It merges the two lists by position, exports the result as GeoJSON, and keeps running statistics per zip code and per region.

The Dafny modules follow the scripts:

| module | file | models |
|---|---|---|
| `Wrappers` | `wrappers.dfy` | `Option` and `Result` with the `:-` operator |
| `Json` | `json.dfy` | parsed JSON values; `stripNone` and key lookup |
| `Records` | `records.dfy` | the records the scripts exchange, and their JSON shape |
| `Sorting` | `sorting.dfy` | Python's stable `sorted` as an insertion sort on a strict weak order |
| `Patterns` | `patterns.dfy` | the three regular expressions, as greedy scans |
| `Afmps` | `afmps.dfy` | the row-to-record mapping of `pharmaciesFromAFMPS.py` |
| `OsmTags` | `osm_tags.dfy` | the tag helpers shared by both OSM extractors |
| `OsmOverpass` | `osm_overpass.dfy` | `extract_pharmacies` of `pharmaciesFromOSM.py` (nodes and ways) |
| `OsmFeatures` | `osm_features.dfy` | `extract_pharmacies` of `scripts/pharmaciesFromOSM.py` (feature rows) |
| `Merge` | `merge.dfy` | `mergePharmaciesFromAFMPSandOSM.py`: both sorted structures, the greedy first-fit match, the stripped output |
| `GeoJson` | `geojson.dfy` | `scripts/lastPharmaciesToGeoJSON.py` |
| `Stats` | `stats.dfy` | `updateStats.py`: the region predicates, the per-zip statistics, the run key, and the update of the statistics file |

Everything foreign to the scripts becomes a parameter:

- the haversine distance is `dist: (Coord, Coord) -> real`;
- the Lambert 2008 to WGS 84 projection is `toWgs84`;
- the opening-hours humaniser is `humanise`;
- today's date and the current time are strings.

A Python exception, such as a missing key, a way without nodes or a zip code outside every region, becomes `None` or a `Failure`.

The merge is written twice:

- `Merge.Reconcile` is the reference: a function over the sorted records that says which slot each record takes.
- `Merge.CombineLoop` is the loop as the script writes it. It has an outer loop over the records and an inner scan that stops at the first candidate.

The method is proved to yield exactly what the reference describes.

## Model

| member | source | states |
|---|---|---|
| Json.StripNone | mergePharmaciesFromAFMPSandOSM.py:56-67 | the result holds no null at any depth; non-null stays non-null; scalars come back unchanged; arrays stay arrays and objects stay objects |
| Json.StripFields | mergePharmaciesFromAFMPSandOSM.py:59 | the stripped fields hold no null value and are never more than the input fields |
| Json.StripItems | mergePharmaciesFromAFMPSandOSM.py:61 | the stripped items hold no null and are never more than the input items |
| Json.StripItemsAppend | mergePharmaciesFromAFMPSandOSM.py:61 | stripping a concatenation is the concatenation of the strips, so survivors keep their order and multiplicity and nothing else appears |
| Json.StripItemsSingle | mergePharmaciesFromAFMPSandOSM.py:61 | a single null item is dropped; any other item is kept, stripped |
| Json.StripNoNull | mergePharmaciesFromAFMPSandOSM.py:56-67 | a value without nulls is its own stripped form |
| Json.StripIdempotent | mergePharmaciesFromAFMPSandOSM.py:56-67 | stripping twice is the same as stripping once |
| Json.StripKeepsKeys | mergePharmaciesFromAFMPSandOSM.py:59 | with distinct keys, a key keeps its value, stripped, exactly when that value is not null, and disappears when it is null |
| Json.StripKeepsFirst | mergePharmaciesFromAFMPSandOSM.py:59 | the value a lookup finds, if not null, is still found after stripping, itself stripped |
| Json.StripItemsKeepsNonNull | mergePharmaciesFromAFMPSandOSM.py:61 | every non-null item of a list survives stripping, stripped |
| Json.StripItemsInPlace | mergePharmaciesFromAFMPSandOSM.py:61 | a list without null items keeps its length and each item's position |
| Json.GetFieldAt | scripts/lastPharmaciesToGeoJSON.py:25 | a lookup finds the first field carrying the key |
| Json.DistinctLookup | scripts/lastPharmaciesToGeoJSON.py:37-46 | in an object with distinct keys, every field is found by its own key |
| Records.AfmpsCoord | mergePharmaciesFromAFMPSandOSM.py:44-47 | `geo[1]` gives a position exactly when the list has a second entry and it is a WGS-84 entry; the position is that entry's |
| Sorting.Insert | mergePharmaciesFromAFMPSandOSM.py:35 | insertion adds exactly one element and keeps the rest (multiset) |
| Sorting.StableSort | mergePharmaciesFromAFMPSandOSM.py:35 | the sort result is a permutation of its input |
| Sorting.SortSorted | mergePharmaciesFromAFMPSandOSM.py:35 | for a strict weak order, the result is sorted |
| Sorting.SortStable | mergePharmaciesFromAFMPSandOSM.py:35 | the sort is stable: the elements equivalent to any `x` keep their input order |
| Sorting.InsertSorted | updateStats.py:42 | inserting into a sorted list keeps it sorted |
| Sorting.InsertEquivalents | updateStats.py:42 | insertion places the new element before all the elements equivalent to it |
| Patterns.LastCloseBelow | pharmaciesFromAFMPS.py:70 | the last `)` at or below a bound that `.+\)` can reach, and that no later one qualifies |
| Patterns.CloseEnd | pharmaciesFromAFMPS.py:70 | greedy `.+\)`: the match ends at the last reachable `)`, or there is none |
| Patterns.GreedyGap | pharmaciesFromAFMPS.py:70 | greedy `.+` before a marker: the longest gap after which the rest matches, and no longer gap works |
| Patterns.LastGap | pharmaciesFromAFMPS.py:53 | the backtracking search of `.+` / `.*`: the largest gap end in range that lets the rest match |
| Patterns.MatchKbo | pharmaciesFromAFMPS.py:70 | a match splits the string into a non-empty name, the " (KBO-BCE : " marker, a non-empty number, and a final `)` |
| Patterns.KboRoundTrip | pharmaciesFromAFMPS.py:70 | "N (KBO-BCE : C)" gives back N and C, for any single-line N and any C without `(` |
| Patterns.KboGapMaximal | pharmaciesFromAFMPS.py:70 | in "N (KBO-BCE : C)" no marker starts after N, so the greedy name stops at N |
| Patterns.KboNeedsParen | pharmaciesFromAFMPS.py:83-86 | a string without `(` (such as "Idem") never matches |
| Patterns.MatchRunKey | updateStats.py:81-82 | a match starts with "pharmacies-" followed by a non-empty single-line key and then `.json`; a name without the prefix never matches |
| Patterns.RunKeyRoundTrip | updateStats.py:81-83 | "pharmacies-K.json" gives back K |
| Patterns.SearchUpdate | pharmaciesFromAFMPS.py:53-54 | the search finds a date exactly when the pattern can start at some `(` of the footer |
| Patterns.SearchFinds | pharmaciesFromAFMPS.py:54 | the search from a position succeeds exactly when a match starts at or after it |
| Patterns.SearchStep | pharmaciesFromAFMPS.py:54 | where no match starts, the search moves on to the next position |
| Patterns.UpdateSkip | pharmaciesFromAFMPS.py:54 | the search skips every position where no match starts (leftmost match) |
| Patterns.UpdateGapOfFooter | pharmaciesFromAFMPS.py:53 | in a well-formed footer, `.*` stops right before "update : " and `.+\)` ends at the final `)` |
| Patterns.UpdateGapMaximal | pharmaciesFromAFMPS.py:53 | no "update : " marker starts after the real one when the date has no `:` |
| Patterns.UpdateRoundTrip | pharmaciesFromAFMPS.py:53-55 | "...(M update : D)" gives back D, when the text before the `(` has no other `(` |
| Patterns.UpdateNeedsParen | pharmaciesFromAFMPS.py:53-55 | a footer without `(` gives no date |
| Afmps.PartyOf | pharmaciesFromAFMPS.py:110-117 | no match gives null name and number; a match gives the captured name and number |
| Afmps.StatusOf | pharmaciesFromAFMPS.py:118 | "ACTIVE" exactly when the status cell is missing, "TEMPORARILY_SUSPENDED" exactly when it is present |
| Afmps.BuildPharmacy | pharmaciesFromAFMPS.py:76-119 | the record has exactly two geo entries (Lambert at 0, the projected WGS-84 at 1); the holder comes from the holder cell; the operator comes from the operator cell, or the holder's when that cell does not match; the other cells are copied |
| Afmps.UpdateDate | pharmaciesFromAFMPS.py:53-55 | the captured date when the footer matches, today's otherwise |
| Afmps.ExtractAfmps | pharmaciesFromAFMPS.py:73-124 | one record per row, in row order, plus the update date |
| Afmps.HolderAndOperator | pharmaciesFromAFMPS.py:83-86 | a holder "N (KBO-BCE : C)" with an "Idem"-like operator gives N and C to both holder and operator |
| Afmps.HolderWithoutPattern | pharmaciesFromAFMPS.py:83-84 | a holder cell without the pattern gives null name and number |
| Afmps.ExtractHasWgs84 | pharmaciesFromAFMPS.py:102-108 | every extracted record has the `geo[1]` position the merge sorts on, namely the projection of its cell coordinates |
| Afmps.UpdateDateCases | pharmaciesFromAFMPS.py:53-55 | a well-formed footer yields its date; a footer without `(` yields today |
| OsmTags.Tag | scripts/pharmaciesFromOSM.py:15-17 | an absent tag reads as missing |
| OsmTags.AccessLocalisedTag | scripts/pharmaciesFromOSM.py:13-17 | with a language, reads "key:lang"; without one, the plain key |
| OsmTags.FindFirstNotNone | scripts/pharmaciesFromOSM.py:18-26 | missing exactly when every key is missing; otherwise the value of the first present key in list order |
| OsmTags.FullContact | pharmaciesFromOSM.py:70-77 | all four contact keys in order, each carrying the first present value among its tags, and missing exactly when all of its tags are missing |
| OsmTags.ExtractContact | scripts/pharmaciesFromOSM.py:43-64 | only truthy values are kept, each under its own key with the first present value of its tags |
| OsmTags.ExtractContactComplete | scripts/pharmaciesFromOSM.py:46-60 | every key whose first present value is truthy is set, with that value |
| OsmTags.ExtractContactAppend | scripts/pharmaciesFromOSM.py:46-60 | keys are handled one after the other, so the entries come in the order phone, email, fax, website |
| OsmTags.TruthyEntries | scripts/pharmaciesFromOSM.py:47-60 | keeps exactly the entries with a non-empty value: each kept entry is truthy and from the input, and every truthy input entry is kept |
| OsmTags.TruthyEntriesAppend | scripts/pharmaciesFromOSM.py:47-60 | the filter works piecewise, so kept entries keep their input order |
| OsmTags.TruthyEntriesSingle | scripts/pharmaciesFromOSM.py:47-48 | a single entry is kept exactly when its value is truthy |
| OsmTags.ContactsAgree | scripts/pharmaciesFromOSM.py:43-64 | the feature-table contact is the Overpass contact with its empty and missing entries dropped |
| OsmTags.LanguagesDistinct | scripts/pharmaciesFromOSM.py:69 | the languages fr, nl, default are distinct and ranked in that order |
| OsmTags.Localised | scripts/pharmaciesFromOSM.py:73-80 | a list built from the three languages in turn is ordered fr, nl, default, with every language at most once |
| OsmTags.LocalisedPresence | scripts/pharmaciesFromOSM.py:73-80 | a language occurs in such a list exactly when its own part is non-empty |
| OsmTags.LocalisedEach | scripts/pharmaciesFromOSM.py:99-119 | a property every part has holds for the whole list |
| OsmTags.NameIn | scripts/pharmaciesFromOSM.py:73-80 | one entry, with that language and the tag's value, exactly when the localised name tag exists |
| OsmTags.NameListEntries | scripts/pharmaciesFromOSM.py:73-80 | every name entry carries the value of its own language's name tag |
| OsmTags.NameListPresence | pharmaciesFromOSM.py:57-64 | a language has a name entry exactly when its name tag exists |
| OsmTags.NameListOrder | pharmaciesFromOSM.py:57-64 | name entries come in the order fr, nl, default |
| OsmTags.OpeningHours | scripts/pharmaciesFromOSM.py:87-96 | three entries (fr, nl, de, each the humanised tag) exactly when the tag exists and is not "closed", none otherwise |
| OsmTags.AddressIn | scripts/pharmaciesFromOSM.py:99-119 | one address, with that language, exactly when the localised street tag exists |
| OsmTags.AddressesEntries | scripts/pharmaciesFromOSM.py:99-119 | every address is the one built for its own language |
| OsmTags.AddressesPresence | pharmaciesFromOSM.py:94-114 | a language has an address exactly when its localised street tag exists |
| OsmTags.AddressesOrder | pharmaciesFromOSM.py:94-114 | addresses come in the order fr, nl, default |
| OsmTags.AddressFallback | scripts/pharmaciesFromOSM.py:102-114 | the street and city are the localised tags when those are truthy, the general tags otherwise |
| OsmOverpass.Position | pharmaciesFromOSM.py:65-69 | a node uses its own position; a way uses its first node's, and fails without nodes |
| OsmOverpass.Extract | pharmaciesFromOSM.py:55-115 | the record exists exactly when the position does; each field comes from its helper (names, full contact, brand, hours, addresses) |
| OsmOverpass.ExtractAll | pharmaciesFromOSM.py:55-117 | one record per element, in order; fails exactly when some element has no position |
| OsmOverpass.ContactShape | pharmaciesFromOSM.py:70-77 | contact has the keys phone, email, fax, website in order; each takes its `contact:` tag before the plain one, and the website falls back from contact:website to website to url |
| OsmOverpass.FirstOfTwo | pharmaciesFromOSM.py:39-47 | the first present value of two tags is the first tag's when present, the second's otherwise |
| OsmOverpass.FirstOfThree | pharmaciesFromOSM.py:39-47 | the first present value of three tags, in that order |
| OsmFeatures.CentroidCoord | scripts/pharmaciesFromOSM.py:34-40 | latitude from the centroid's `y`, longitude from its `x` |
| OsmFeatures.Extract | scripts/pharmaciesFromOSM.py:71-120 | the centroid position, the truthy-only contact, and the same name, hours and address lists as the Overpass extractor |
| OsmFeatures.ExtractAll | scripts/pharmaciesFromOSM.py:71-122 | one record per row, in order |
| OsmFeatures.SameAsOverpass | scripts/pharmaciesFromOSM.py:43-64 | on the same tags and position the two extractors agree except that this one drops empty contact entries |
| Merge.OsmSlots | mergePharmaciesFromAFMPSandOSM.py:22-37 | one unconsumed slot per OSM record; slot i carries index i and its record's position; slots ascend by (latitude, longitude); the slots carry a permutation of the input |
| Merge.OsmSlotsStable | mergePharmaciesFromAFMPSandOSM.py:33-35 | records at the same position keep their input order |
| Merge.OsmLtOrder | mergePharmaciesFromAFMPSandOSM.py:35 | the sort key `[latitude, longitude]` is a strict weak order |
| Merge.AfmpsLtOrder | mergePharmaciesFromAFMPSandOSM.py:51 | the sort key `geo[1]` (latitude, longitude) is a strict weak order |
| Merge.FirstMalformed | mergePharmaciesFromAFMPSandOSM.py:45-51 | the first record without a `geo[1]` position, or none when every record has one |
| Merge.AfmpsEntries | mergePharmaciesFromAFMPSandOSM.py:40-53 | fails exactly when a record has no `geo[1]` position; otherwise one pair per record, carrying its own position, ascending by position |
| Merge.AfmpsEntriesPermutation | mergePharmaciesFromAFMPSandOSM.py:50-52 | the sorted records are a permutation of the input, stable among equal positions |
| Merge.FirstMatchFrom | mergePharmaciesFromAFMPSandOSM.py:81-85 | the first unconsumed slot strictly within 15 m, with none before it; none when no slot qualifies |
| Merge.FirstMatchUnique | mergePharmaciesFromAFMPSandOSM.py:81-85 | any choice that is a candidate with no candidate before it is the first match (a closer later one is never preferred) |
| Merge.ScanCandidates | mergePharmaciesFromAFMPSandOSM.py:81-85 | the inner scan, skipping tombstones without measuring, returns the first match |
| Merge.Reconcile | mergePharmaciesFromAFMPSandOSM.py:77-109 | one output per record; each record takes the first slot not taken before it within 15 m, enriched from that slot, or is yielded unchanged when there is none; taken slots become tombstones and the list keeps its length |
| Merge.ReconcileStep | mergePharmaciesFromAFMPSandOSM.py:77-109 | one more iteration keeps all of the loop's invariants |
| Merge.MatchedAtMostOnce | mergePharmaciesFromAFMPSandOSM.py:102 | two records never take the same OSM slot |
| Merge.CombineLoop | mergePharmaciesFromAFMPSandOSM.py:70-109 | the script's nested loops yield exactly the records the reference describes |
| Merge.ReconcileKeepsAfmpsCoord | mergePharmaciesFromAFMPSandOSM.py:89-95 | enriching appends after `geo[1]`, so every output keeps its input's regulator position |
| Merge.ChoiceKeepsAfmpsCoord | mergePharmaciesFromAFMPSandOSM.py:89-95 | a single matched or unmatched record keeps its regulator position |
| Merge.CombineData | mergePharmaciesFromAFMPSandOSM.py:70-109 | fails exactly when a record has no `geo[1]` position; otherwise one output per input, in ascending regulator-position order, each still with its position |
| Merge.MergedJson | mergePharmaciesFromAFMPSandOSM.py:118-121 | the written list has one null-free record per regulator record |
| GeoJson.Coordinates | scripts/lastPharmaciesToGeoJSON.py:25-35 | `[longitude, latitude]` of `geo[1]`, and only when those exist |
| GeoJson.PropertyFieldsLookup | scripts/lastPharmaciesToGeoJSON.py:37-46 | each of the eight properties is found under its own key |
| GeoJson.Properties | scripts/lastPharmaciesToGeoJSON.py:37-46 | exists exactly when the six required keys exist; those are copied verbatim; contact and osm_opening_hours are copied or null |
| GeoJson.Feature | scripts/lastPharmaciesToGeoJSON.py:23-47 | type "Feature", geometry of type "Point" at the coordinates, the properties; exists exactly when both parts do |
| GeoJson.Features | scripts/lastPharmaciesToGeoJSON.py:52 | one feature per record, in order; fails exactly when a feature fails |
| GeoJson.FeatureCollection | scripts/lastPharmaciesToGeoJSON.py:49-53 | type "FeatureCollection" with the features in record order |
| GeoJson.BaseField | mergePharmaciesFromAFMPSandOSM.py:118-121 | every base field of a written record is found by its key and is not null |
| GeoJson.StrippedBaseField | mergePharmaciesFromAFMPSandOSM.py:119 | after stripping, every base field is still found, stripped |
| GeoJson.Wgs84EntryLookup | scripts/lastPharmaciesToGeoJSON.py:32-35 | a stripped WGS-84 entry still gives its latitude and longitude |
| GeoJson.CoordinatesOfMerged | scripts/lastPharmaciesToGeoJSON.py:25-35 | the exported point of a merged record is its regulator position, longitude first, even when OSM appended a third entry |
| GeoJson.PropertiesOfMerged | scripts/lastPharmaciesToGeoJSON.py:37-46 | a merged record has all required properties, with its name and zip code unchanged |
| GeoJson.FeatureOfMerged | scripts/lastPharmaciesToGeoJSON.py:23-47 | every record the merge writes can be exported |
| GeoJson.ExportMerged | scripts/lastPharmaciesToGeoJSON.py:49-53 | exporting the merge's output never fails |
| Stats.RegionsPartition | updateStats.py:21-37 | the three region predicates are pairwise disjoint and together cover exactly 1000..9999 |
| Stats.FirstRegion | updateStats.py:98-100 | no region exactly when no predicate holds; otherwise a listed region whose predicate holds |
| Stats.FindRegion | updateStats.py:96-100 | a region exactly for 1000..9999, and it is the only one whose predicate holds |
| Stats.FoldsToIff | updateStats.py:53-54 | the character-wise comparison agrees with comparing the case-folded status |
| Stats.StatusesFold | pharmaciesFromAFMPS.py:118 | the two statuses the regulator script writes fold to "active" and "temporarily_suspended" |
| Stats.StatusKinds | updateStats.py:53-54 | each status the regulator script writes counts as exactly one of active or suspended |
| Stats.Count | updateStats.py:52-54 | a count never exceeds the list length |
| Stats.CountAppend | updateStats.py:52-54 | counting over a concatenation is the sum of the counts |
| Stats.CountPermutation | updateStats.py:42 | sorting does not change any count |
| Stats.CountExclusive | updateStats.py:52-54 | active plus suspended never exceed the total of a zip code |
| Stats.CountComplete | updateStats.py:52-54 | with the regulator's two statuses, active plus suspended equal the total |
| Stats.StatsLtOrder | updateStats.py:42 | the key `(zipCode, authorization_id)` is a strict weak order |
| Stats.RunLength | updateStats.py:46 | the first group has at least one element, all with the first zip code, and ends where the zip code changes |
| Stats.Groups | updateStats.py:46-47 | `groupby` yields non-empty groups, the first starting with the first record |
| Stats.GroupsAreRuns | updateStats.py:46 | every group has one zip code, and neighbouring groups have different ones |
| Stats.GroupsFlatten | updateStats.py:46-47 | the groups, concatenated, give back the sorted list |
| Stats.GroupsAscending | updateStats.py:42-46 | after the sort, group zip codes strictly ascend, so each zip code has one group |
| Stats.GroupOfZip | updateStats.py:46 | every zip code of the list has a group |
| Stats.ZipOfGroup | updateStats.py:46 | every group's zip code occurs in the list |
| Stats.GroupCounts | updateStats.py:46-55 | a group's counts equal the counts for its zip code over the whole sorted list |
| Stats.GroupFirst | updateStats.py:49 | a group's first record is the first record with that zip code in the sorted list |
| Stats.Tally | updateStats.py:50-55 | total is the group size; active plus suspended never exceed it |
| Stats.ZipEntries | updateStats.py:46-55 | one entry per group |
| Stats.SumTotalsFlatten | updateStats.py:52 | the totals of the entries add up to the number of grouped records |
| Stats.SortedForStats | updateStats.py:42 | a permutation of the input, sorted by `(zipCode, authorization_id)` and so by zip code |
| Stats.StatsByZipCode | updateStats.py:39-58 | zip codes ascend and are exactly the input's; each total, active and suspended count is the input's count; each municipality is that of a record with the smallest authorization_id for the zip code; the totals add up to the input length |
| Stats.EntriesKeys | updateStats.py:46-50 | the entry keys are exactly the input's zip codes |
| Stats.KeysOfGroups | updateStats.py:42-50 | a zip code has an entry exactly when some input record has it |
| Stats.EntriesCounts | updateStats.py:50-55 | each entry's counts are the counts over the whole input |
| Stats.EntriesMunicipality | updateStats.py:42-49 | each entry's municipality is that of the smallest authorization_id of its zip code |
| Stats.EntriesTotal | updateStats.py:52 | the entry totals add up to the input length |
| Stats.EntriesAscending | updateStats.py:42-46 | entries come in ascending zip-code order |
| Stats.Lookup | updateStats.py:103 | a region is missing exactly when no entry carries its name |
| Stats.AddTo | updateStats.py:103-114 | the region holds its earlier counters (zero when missing) plus the zip code's; every other region is unchanged; names stay distinct |
| Stats.RegionFold | updateStats.py:96-114 | fails exactly when some zip code lies outside every region; otherwise region names are distinct |
| Stats.RegionFoldSums | updateStats.py:96-114 | each region holds the sum of the counters of its zip codes, and appears exactly when it has one |
| Stats.NoSumOutside | updateStats.py:103-107 | a region with no zip code sums to zero |
| Stats.AddToTotal | updateStats.py:110 | adding a zip code raises the regions' total by that zip code's total |
| Stats.RegionFoldTotal | updateStats.py:96-114 | the regions' totals add up to the zip codes' totals |
| Stats.RunKey | updateStats.py:80-83 | the key captured from "pharmacies-K.json", or today's date otherwise |
| Stats.UpdateStats | updateStats.py:79-114 | fails exactly when a zip code lies outside 1000..9999; otherwise only the run key is written, every other key is unchanged, and the new snapshot holds the file name, the time, the per-zip statistics, and regions totalling the input length |
| Stats.UnmappedIff | updateStats.py:96-100 | some zip entry has no region exactly when some record's zip code is out of range |
| Stats.UpdateStatsStores | updateStats.py:88-114 | the update succeeds exactly when the region fold does, and then stores exactly the fresh snapshot under the key |
| Stats.UpdateIdempotent | updateStats.py:88-114 | re-running the same key on the same input replaces the snapshot rather than adding to it |
| Stats.SnapshotRegions | updateStats.py:96-114 | each region of the stored snapshot holds the sum over its zip codes |

## Left out

- Reading and writing files, the spreadsheet reader, the Overpass, Nominatim and feature-table fetches, `argparse`, and the top-level exception handler. These are I/O.
- `scripts/generateLastPharmacies.py` is not part of this model. It only copies the newest file.
- The haversine distance, the Lambert 2008 to WGS 84 projection and the opening-hours humaniser are foreign numeric or library code. They are parameters.
- `datetime.today()` and `datetime.now()` are string parameters. The date formats are not modelled.
- Pandas NaN cells and tags read as missing (`None`). A NaN status cell would read as suspended in Python; the model does not represent NaN.
- `stripNone`'s tuple and set branches are left out: parsed JSON has neither.
- JSON numbers are `int` and `real`. Floating-point rounding is not modelled.
- The integer zip codes of the statistics become string keys when Python writes them. The model keeps them as integers.
- The statistics file keeps only the snapshots. Key order in the written file is not modelled.
- Stats.StatsByZipCode: when two records of a zip code share the smallest authorization_id, the contract says the municipality is one of theirs, not which. The stable sort picks the first in input order.
- Stats.CaseFold: only ASCII upper-case letters are folded. Python's `casefold` covers all of Unicode.
- Stats.UpdateStats: the code raises when a zip code lies outside every region, so no file is written. The model returns a `Failure`, and the written region totals are proved only on success.
- Merge.CombineData: the output comes out in the sorted order of the regulator positions, not in input order, because the code iterates over the sorted list.
- Merge.CombineData: the code indexes `geo[1]` without checking it. The model fails when a record lacks that entry, and its contract says nothing about which record caused the failure.
- OsmOverpass.Extract: a way without nodes raises in the code. The model returns `None` and does not say which element caused it.
- The `.` and `\s` of the regular expressions follow Python's `str` patterns. `\s` is the set of characters for which `isspace()` holds, as listed in `Patterns.IsSpace`.
