/** The record linkage of `mergePharmaciesFromAFMPSandOSM.py`: both lists are
    sorted by position, then every regulator record, in that sorted order, takes
    the first still-unused OpenStreetMap record closer than 15 metres.

    The haversine distance is a parameter `dist`; nothing about it is assumed. */
module Merge {
  import opened Wrappers
  import opened Json
  import opened Records
  import opened Sorting

  /** `MAX_DISTANCE`, in metres; a match needs a distance strictly below it. */
  const MaxDistance: real := 15.0

  type Distance = (Coord, Coord) -> real

  // ----- generate_data_structure_osm -----

  function OsmLt(a: OsmPharmacy, b: OsmPharmacy): bool {
    CoordLt(a.geo, b.geo)
  }

  lemma OsmLtOrder()
    ensures StrictWeakOrder(OsmLt)
  {
  }

  /** An entry of the candidate list: `(idx, coords, row, False)` while unused,
      the tombstone `(None, None, None, True)` once matched. */
  datatype Slot = Open(idx: nat, coords: Coord, osm: OsmPharmacy) | Consumed

  /** The tuple's fourth component, `alreadyChecked`. */
  predicate IsConsumed(s: Slot) {
    s.Consumed?
  }

  /** Every unused slot carries its own position as index. */
  predicate Indexed(slots: seq<Slot>) {
    forall k :: 0 <= k < |slots| && slots[k].Open? ==> slots[k].idx == k
  }

  /** The OpenStreetMap records still held by unused slots, in slot order. */
  function Carried(slots: seq<Slot>): seq<OsmPharmacy> {
    if |slots| == 0 then []
    else (if slots[0].Open? then [slots[0].osm] else []) + Carried(slots[1..])
  }

  /** `generate_data_structure_osm`: one unused slot per record, indexed by
      position, in ascending (latitude, longitude) order. */
  function OsmSlots(osm: seq<OsmPharmacy>): (r: seq<Slot>)
    ensures |r| == |osm|
    ensures forall i :: 0 <= i < |r| ==> !IsConsumed(r[i]) && r[i].idx == i && r[i].coords == r[i].osm.geo
    ensures Indexed(r)
    ensures forall i, j :: 0 <= i < j < |r| ==> r[i].Open? && r[j].Open? && !CoordLt(r[j].coords, r[i].coords)
    ensures multiset(Carried(r)) == multiset(osm)
  {
    var sorted := StableSort(osm, OsmLt);
    OsmLtOrder();
    SortSorted(osm, OsmLt);
    var r := seq(|sorted|, i requires 0 <= i < |sorted| => Open(i, sorted[i].geo, sorted[i]));
    CarriedOpen(r, sorted);
    r
  }

  lemma {:induction false} CarriedOpen(r: seq<Slot>, s: seq<OsmPharmacy>)
    requires |r| == |s|
    requires forall i :: 0 <= i < |r| ==> r[i].Open? && r[i].osm == s[i]
    ensures Carried(r) == s
    decreases |r|
  {
    if |r| > 0 {
      CarriedOpen(r[1..], s[1..]);
      assert s == [s[0]] + s[1..];
    }
  }

  /** The candidate list keeps equal positions in input order (the sort is stable). */
  lemma OsmSlotsStable(osm: seq<OsmPharmacy>, x: OsmPharmacy)
    ensures Equivalents(Carried(OsmSlots(osm)), x, OsmLt) == Equivalents(osm, x, OsmLt)
  {
    var sorted := StableSort(osm, OsmLt);
    var r := OsmSlots(osm);
    CarriedOpen(r, sorted);
    OsmLtOrder();
    SortStable(osm, x, OsmLt);
  }

  // ----- generate_data_structure_afmps -----

  datatype MergeError = MissingWgs84(authorizationId: int)

  /** The sort key of a regulator record; only used once every record has one. */
  function AfmpsKey(p: Pharmacy): Coord {
    AfmpsCoord(p).GetOr(Coord(0.0, 0.0))
  }

  function AfmpsLt(a: Pharmacy, b: Pharmacy): bool {
    CoordLt(AfmpsKey(a), AfmpsKey(b))
  }

  lemma AfmpsLtOrder()
    ensures StrictWeakOrder(AfmpsLt)
  {
  }

  /** Position of the first record without a WGS-84 `geo[1]`: the one whose sort
      key raises first. */
  function FirstMalformed(afmps: seq<Pharmacy>): (r: Option<nat>)
    ensures r.None? <==> forall i :: 0 <= i < |afmps| ==> AfmpsCoord(afmps[i]).Some?
    ensures r.Some? ==>
      && r.value < |afmps| && AfmpsCoord(afmps[r.value]).None?
      && forall i :: 0 <= i < r.value ==> AfmpsCoord(afmps[i]).Some?
  {
    if |afmps| == 0 then None
    else if AfmpsCoord(afmps[0]).None? then Some(0)
    else match FirstMalformed(afmps[1..])
      case None => None
      case Some(k) => Some(k + 1)
  }

  /** `generate_data_structure_afmps`: `(coords, pharmacy)` pairs in ascending
      order of `geo[1]`, or the error the sort key raises. */
  function AfmpsEntries(afmps: seq<Pharmacy>): (r: Result<seq<(Coord, Pharmacy)>, MergeError>)
    ensures r.Failure? <==> exists i :: 0 <= i < |afmps| && AfmpsCoord(afmps[i]).None?
    ensures r.Success? ==> |r.value| == |afmps|
    ensures r.Success? ==> forall i :: 0 <= i < |r.value| ==> AfmpsCoord(r.value[i].1) == Some(r.value[i].0)
    ensures r.Success? ==> forall i, j :: 0 <= i < j < |r.value| ==> !CoordLt(r.value[j].0, r.value[i].0)
  {
    match FirstMalformed(afmps)
    case Some(k) => Failure(MissingWgs84(afmps[k].authorizationId))
    case None =>
      var sorted := StableSort(afmps, AfmpsLt);
      AfmpsLtOrder();
      SortSorted(afmps, AfmpsLt);
      assert forall i :: 0 <= i < |sorted| ==> AfmpsCoord(sorted[i]).Some? by {
        forall i | 0 <= i < |sorted| ensures AfmpsCoord(sorted[i]).Some? {
          assert sorted[i] in multiset(afmps);
        }
      }
      Success(seq(|sorted|, i requires 0 <= i < |sorted| => (AfmpsKey(sorted[i]), sorted[i])))
  }

  /** The regulator records of the pairs, in order. */
  function Pharmacies(es: seq<(Coord, Pharmacy)>): (r: seq<Pharmacy>)
    ensures |r| == |es|
    ensures forall i :: 0 <= i < |es| ==> r[i] == es[i].1
  {
    seq(|es|, i requires 0 <= i < |es| => es[i].1)
  }

  /** The pairs hold the input records, rearranged stably by position. */
  lemma AfmpsEntriesPermutation(afmps: seq<Pharmacy>, x: Pharmacy)
    requires AfmpsEntries(afmps).Success?
    ensures multiset(Pharmacies(AfmpsEntries(afmps).value)) == multiset(afmps)
    ensures Equivalents(Pharmacies(AfmpsEntries(afmps).value), x, AfmpsLt) == Equivalents(afmps, x, AfmpsLt)
  {
    var sorted := StableSort(afmps, AfmpsLt);
    assert Pharmacies(AfmpsEntries(afmps).value) == sorted;
    AfmpsLtOrder();
    SortStable(afmps, x, AfmpsLt);
  }

  // ----- combine_data -----

  /** The generator's filter: `alreadyChecked is False and haversine(...) < MAX_DISTANCE`.
      A tombstone has no coordinates, so no distance is taken for it. */
  predicate IsCandidate(a: Coord, s: Slot, dist: Distance) {
    !IsConsumed(s) && dist(a, s.coords) < MaxDistance
  }

  /** `next(...)` over the candidate list: the first candidate from `from` on. */
  function FirstMatchFrom(a: Coord, slots: seq<Slot>, dist: Distance, from: nat): (r: Option<nat>)
    requires from <= |slots|
    decreases |slots| - from
    ensures r.Some? ==>
      && from <= r.value < |slots| && IsCandidate(a, slots[r.value], dist)
      && forall j :: from <= j < r.value ==> !IsCandidate(a, slots[j], dist)
    ensures r.None? ==> forall j :: from <= j < |slots| ==> !IsCandidate(a, slots[j], dist)
  {
    if from == |slots| then None
    else if IsCandidate(a, slots[from], dist) then Some(from)
    else FirstMatchFrom(a, slots, dist, from + 1)
  }

  function FirstMatch(a: Coord, slots: seq<Slot>, dist: Distance): Option<nat> {
    FirstMatchFrom(a, slots, dist, 0)
  }

  /** The first candidate is determined by the candidates: any index that is a
      candidate with none before it, or none when there is none. */
  lemma FirstMatchUnique(a: Coord, slots: seq<Slot>, dist: Distance, c: Option<nat>)
    requires c.Some? ==>
      && c.value < |slots| && IsCandidate(a, slots[c.value], dist)
      && forall j :: 0 <= j < c.value ==> !IsCandidate(a, slots[j], dist)
    requires c.None? ==> forall j :: 0 <= j < |slots| ==> !IsCandidate(a, slots[j], dist)
    ensures c == FirstMatch(a, slots, dist)
  {
  }

  /** The record yielded on a match: the copied attributes and the OpenStreetMap
      position appended to `geo`. */
  function Enrich(p: Pharmacy, at: Coord, o: OsmPharmacy): Pharmacy {
    p.(geo := p.geo + [Wgs84(OsmSource, at)], osm := Some(Attributes(o)))
  }

  /** The outcome of one iteration of the loop. */
  datatype Step = Step(out: Pharmacy, chosen: Option<nat>, slots: seq<Slot>)

  /** One iteration: yield the record, enriched if a candidate was found, and
      overwrite that candidate's slot with a tombstone. */
  function MatchOne(a: Coord, p: Pharmacy, slots: seq<Slot>, dist: Distance): Step
    requires Indexed(slots)
  {
    match FirstMatch(a, slots, dist)
    case None => Step(p, None, slots)
    case Some(k) =>
      var s := slots[k];
      Step(Enrich(p, s.coords, s.osm), Some(k), slots[s.idx := Consumed])
  }

  /** Whether slot `j` is a candidate for position `a`, given the slots chosen so far. */
  predicate Available(slots: seq<Slot>, taken: seq<Option<nat>>, a: Coord, j: nat, dist: Distance) {
    j < |slots| && slots[j].Open? && Some(j) !in taken && dist(a, slots[j].coords) < MaxDistance
  }

  /** What the loop does for one record, stated against the initial candidate
      list: the first slot, in sorted order, that is unused and close enough is
      chosen, and the record is yielded enriched with it; without one it is
      yielded unchanged. */
  predicate ChoiceOk(e: (Coord, Pharmacy), slots: seq<Slot>, taken: seq<Option<nat>>,
                     c: Option<nat>, out: Pharmacy, dist: Distance)
  {
    match c
    case Some(k) =>
      && Available(slots, taken, e.0, k, dist)
      && (forall j :: 0 <= j < k ==> !Available(slots, taken, e.0, j, dist))
      && out == Enrich(e.1, slots[k].coords, slots[k].osm)
    case None =>
      && (forall j :: 0 <= j < |slots| ==> !Available(slots, taken, e.0, j, dist))
      && out == e.1
  }

  /** The state of the loop after some records: the yielded records, the slot
      each one took, and the candidate list. */
  datatype Run = Run(merged: seq<Pharmacy>, chosen: seq<Option<nat>>, slots: seq<Slot>)

  /** The loop of `combine_data` over the sorted pairs `es`. */
  function Reconcile(es: seq<(Coord, Pharmacy)>, slots: seq<Slot>, dist: Distance): (r: Run)
    requires Indexed(slots)
    decreases |es|
    ensures |r.merged| == |es| && |r.chosen| == |es|
    ensures |r.slots| == |slots| && Indexed(r.slots)
    ensures forall k :: 0 <= k < |slots| ==>
      r.slots[k] == (if Some(k) in r.chosen then Consumed else slots[k])
    ensures forall i :: 0 <= i < |es| ==>
      ChoiceOk(es[i], slots, r.chosen[..i], r.chosen[i], r.merged[i], dist)
  {
    if |es| == 0 then Run([], [], slots)
    else
      var n := |es| - 1;
      var prev := Reconcile(es[..n], slots, dist);
      var st := MatchOne(es[n].0, es[n].1, prev.slots, dist);
      var r := Run(prev.merged + [st.out], prev.chosen + [st.chosen], st.slots);
      ReconcileStep(es, slots, dist, prev, st, r);
      r
  }

  lemma ReconcileStep(es: seq<(Coord, Pharmacy)>, slots: seq<Slot>, dist: Distance,
                      prev: Run, st: Step, r: Run)
    requires |es| > 0 && Indexed(slots)
    requires |prev.merged| == |es| - 1 && |prev.chosen| == |es| - 1
    requires |prev.slots| == |slots| && Indexed(prev.slots)
    requires forall k :: 0 <= k < |slots| ==>
      prev.slots[k] == (if Some(k) in prev.chosen then Consumed else slots[k])
    requires forall i :: 0 <= i < |es| - 1 ==>
      ChoiceOk(es[i], slots, prev.chosen[..i], prev.chosen[i], prev.merged[i], dist)
    requires st == MatchOne(es[|es| - 1].0, es[|es| - 1].1, prev.slots, dist)
    requires r == Run(prev.merged + [st.out], prev.chosen + [st.chosen], st.slots)
    ensures |r.merged| == |es| && |r.chosen| == |es|
    ensures |r.slots| == |slots| && Indexed(r.slots)
    ensures forall k :: 0 <= k < |slots| ==>
      r.slots[k] == (if Some(k) in r.chosen then Consumed else slots[k])
    ensures forall i :: 0 <= i < |es| ==>
      ChoiceOk(es[i], slots, r.chosen[..i], r.chosen[i], r.merged[i], dist)
  {
    var n := |es| - 1;
    StepCandidates(slots, prev, es[n].0, dist);
    StepChoice(es[n], slots, prev, st, dist);
    assert r.chosen[..n] == prev.chosen;
    StepKeepsEarlier(es, slots, dist, prev, r);
    StepSlots(slots, prev, st, r.chosen, es[n].0, es[n].1, dist);
  }

  /** A slot of the current list is a candidate exactly when it is available
      against the initial list. */
  lemma StepCandidates(slots: seq<Slot>, prev: Run, a: Coord, dist: Distance)
    requires |prev.slots| == |slots| && Indexed(slots)
    requires forall k :: 0 <= k < |slots| ==>
      prev.slots[k] == (if Some(k) in prev.chosen then Consumed else slots[k])
    ensures forall j :: 0 <= j < |slots| ==>
      (IsCandidate(a, prev.slots[j], dist) <==> Available(slots, prev.chosen, a, j, dist))
  {
  }

  /** The new record's choice is the first available slot. */
  lemma StepChoice(e: (Coord, Pharmacy), slots: seq<Slot>, prev: Run, st: Step, dist: Distance)
    requires |prev.slots| == |slots| && Indexed(prev.slots)
    requires forall j :: 0 <= j < |slots| ==>
      (IsCandidate(e.0, prev.slots[j], dist) <==> Available(slots, prev.chosen, e.0, j, dist))
    requires forall k :: 0 <= k < |slots| ==> prev.slots[k] == Consumed || prev.slots[k] == slots[k]
    requires st == MatchOne(e.0, e.1, prev.slots, dist)
    ensures ChoiceOk(e, slots, prev.chosen, st.chosen, st.out, dist)
  {
    match FirstMatch(e.0, prev.slots, dist)
    case None =>
    case Some(k) =>
      assert prev.slots[k] == slots[k];
  }

  /** Appending one record leaves the earlier choices as they were. */
  lemma StepKeepsEarlier(es: seq<(Coord, Pharmacy)>, slots: seq<Slot>, dist: Distance, prev: Run, r: Run)
    requires |es| > 0
    requires |prev.merged| == |es| - 1 && |prev.chosen| == |es| - 1
    requires |r.merged| == |es| && |r.chosen| == |es|
    requires r.merged[..|es| - 1] == prev.merged && r.chosen[..|es| - 1] == prev.chosen
    requires forall i :: 0 <= i < |es| - 1 ==>
      ChoiceOk(es[i], slots, prev.chosen[..i], prev.chosen[i], prev.merged[i], dist)
    requires ChoiceOk(es[|es| - 1], slots, prev.chosen, r.chosen[|es| - 1], r.merged[|es| - 1], dist)
    ensures forall i :: 0 <= i < |es| ==>
      ChoiceOk(es[i], slots, r.chosen[..i], r.chosen[i], r.merged[i], dist)
  {
    var n := |es| - 1;
    forall i | 0 <= i < |es|
      ensures ChoiceOk(es[i], slots, r.chosen[..i], r.chosen[i], r.merged[i], dist)
    {
      if i < n {
        assert r.chosen[..i] == prev.chosen[..i];
        assert r.chosen[i] == prev.chosen[i] && r.merged[i] == prev.merged[i];
      }
    }
  }

  /** After the step, a slot is a tombstone exactly when some record chose it. */
  lemma StepSlots(slots: seq<Slot>, prev: Run, st: Step, chosen: seq<Option<nat>>,
                  a: Coord, p: Pharmacy, dist: Distance)
    requires |prev.slots| == |slots| && Indexed(prev.slots) && Indexed(slots)
    requires forall k :: 0 <= k < |slots| ==>
      prev.slots[k] == (if Some(k) in prev.chosen then Consumed else slots[k])
    requires st == MatchOne(a, p, prev.slots, dist)
    requires chosen == prev.chosen + [st.chosen]
    ensures |st.slots| == |slots| && Indexed(st.slots)
    ensures forall k :: 0 <= k < |slots| ==>
      st.slots[k] == (if Some(k) in chosen then Consumed else slots[k])
  {
    match FirstMatch(a, prev.slots, dist)
    case None =>
    case Some(k) =>
      assert prev.slots[k].idx == k;
      forall j | 0 <= j < |slots|
        ensures st.slots[j] == (if Some(j) in chosen then Consumed else slots[j])
      {
        assert Some(j) in chosen <==> Some(j) in prev.chosen || j == k;
      }
  }

  /** No OpenStreetMap record is copied into two regulator records. */
  lemma MatchedAtMostOnce(es: seq<(Coord, Pharmacy)>, slots: seq<Slot>, dist: Distance, i: nat, j: nat)
    requires Indexed(slots)
    requires i < j < |es|
    requires Reconcile(es, slots, dist).chosen[i].Some?
    ensures Reconcile(es, slots, dist).chosen[i] != Reconcile(es, slots, dist).chosen[j]
  {
    var r := Reconcile(es, slots, dist);
    assert ChoiceOk(es[j], slots, r.chosen[..j], r.chosen[j], r.merged[j], dist);
    assert r.chosen[i] in r.chosen[..j];
  }

  /** The inner scan: the first slot that is not a tombstone and lies within
      the distance bound, stopping there. */
  method ScanCandidates(a: Coord, slots: seq<Slot>, dist: Distance) returns (found: Option<nat>)
    ensures found == FirstMatch(a, slots, dist)
  {
    var k := 0;
    found := None;
    while k < |slots| && found.None?
      invariant 0 <= k <= |slots|
      invariant found.None? ==> forall j :: 0 <= j < k ==> !IsCandidate(a, slots[j], dist)
      invariant found.Some? ==>
        && found.value < k && IsCandidate(a, slots[found.value], dist)
        && forall j :: 0 <= j < found.value ==> !IsCandidate(a, slots[j], dist)
    {
      if !IsConsumed(slots[k]) && dist(a, slots[k].coords) < MaxDistance {
        found := Some(k);
      }
      k := k + 1;
    }
    FirstMatchUnique(a, slots, dist, found);
  }

  /** The loop as the script writes it: an outer loop over the regulator
      records and an inner scan of the candidate list that stops at the first
      candidate. */
  method CombineLoop(es: seq<(Coord, Pharmacy)>, slots0: seq<Slot>, dist: Distance)
    returns (merged: seq<Pharmacy>)
    requires Indexed(slots0)
    ensures merged == Reconcile(es, slots0, dist).merged
  {
    var slots := slots0;
    merged := [];
    ghost var chosen: seq<Option<nat>> := [];
    for n := 0 to |es|
      invariant Reconcile(es[..n], slots0, dist) == Run(merged, chosen, slots)
    {
      var a := es[n].0;
      var p := es[n].1;
      var found := ScanCandidates(a, slots, dist);
      assert es[..n + 1][..n] == es[..n];
      match found
      case None =>
        merged := merged + [p];
        chosen := chosen + [None];
      case Some(j) =>
        var s := slots[j];
        merged := merged + [Enrich(p, s.coords, s.osm)];
        slots := slots[s.idx := Consumed];
        chosen := chosen + [Some(j)];
    }
    assert es[..|es|] == es;
  }

  /** Enriching appends after `geo[1]`, so every yielded record keeps the
      regulator position of its input record. */
  lemma ReconcileKeepsAfmpsCoord(es: seq<(Coord, Pharmacy)>, slots: seq<Slot>, dist: Distance)
    requires Indexed(slots)
    requires forall i :: 0 <= i < |es| ==> AfmpsCoord(es[i].1).Some?
    ensures forall i :: 0 <= i < |es| ==> AfmpsCoord(Reconcile(es, slots, dist).merged[i]) == AfmpsCoord(es[i].1)
  {
    var run := Reconcile(es, slots, dist);
    forall i | 0 <= i < |es| ensures AfmpsCoord(run.merged[i]) == AfmpsCoord(es[i].1) {
      ChoiceKeepsAfmpsCoord(es[i], slots, run.chosen[..i], run.chosen[i], run.merged[i], dist);
    }
  }

  lemma ChoiceKeepsAfmpsCoord(e: (Coord, Pharmacy), slots: seq<Slot>, taken: seq<Option<nat>>,
                              c: Option<nat>, out: Pharmacy, dist: Distance)
    requires ChoiceOk(e, slots, taken, c, out, dist) && AfmpsCoord(e.1).Some?
    ensures AfmpsCoord(out) == AfmpsCoord(e.1)
  {
    if c.Some? {
      assert out.geo[1] == e.1.geo[1];
    }
  }

  /** `combine_data`: the merged records, one per regulator record, in ascending
      order of the regulator position, or the error raised by a record without
      a WGS-84 position. */
  function CombineData(afmps: seq<Pharmacy>, osm: seq<OsmPharmacy>, dist: Distance)
    : (r: Result<seq<Pharmacy>, MergeError>)
    ensures r.Failure? <==> exists i :: 0 <= i < |afmps| && AfmpsCoord(afmps[i]).None?
    ensures r.Success? ==> |r.value| == |afmps|
    ensures r.Success? ==> forall i :: 0 <= i < |r.value| ==> AfmpsCoord(r.value[i]).Some?
    ensures r.Success? ==> forall i, j :: 0 <= i < j < |r.value| ==>
      !CoordLt(AfmpsKey(r.value[j]), AfmpsKey(r.value[i]))
  {
    var slots := OsmSlots(osm);
    var es :- AfmpsEntries(afmps);
    ReconcileKeepsAfmpsCoord(es, slots, dist);
    Success(Reconcile(es, slots, dist).merged)
  }

  /** The script's output: every merged record, stripped of nulls. */
  function MergedJson(afmps: seq<Pharmacy>, osm: seq<OsmPharmacy>, dist: Distance)
    : (r: Result<seq<Json>, MergeError>)
    ensures r.Success? <==> CombineData(afmps, osm, dist).Success?
    ensures r.Success? ==> |r.value| == |afmps| && forall i :: 0 <= i < |r.value| ==> NoNull(r.value[i])
  {
    var merged :- CombineData(afmps, osm, dist);
    Success(seq(|merged|, i requires 0 <= i < |merged| => StripNone(PharmacyJson(merged[i]))))
  }
}
