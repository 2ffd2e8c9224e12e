/** `updateStats.py`: per zip code and per region counts of the merged
    pharmacy list, stored in the statistics file under the run's date key.
    Reading and writing the files, the command line and the clock are left to
    the caller; the input file name and the two dates are parameters. */
module Stats {
  import opened Wrappers
  import opened Records
  import opened Sorting
  import opened Patterns

  // ----- regions -----

  /** `REGIONS`, in the order they are tried. */
  const Regions: seq<string> := ["Brussels", "Flanders", "Wallonia"]

  predicate Between(zip: int, start: int, end: int) {
    start <= zip <= end
  }

  /** `zipCodeCondition(region)(zip)`: Belgian postal code ranges; a name that
      is not a region matches nothing. */
  predicate ZipCodeCondition(region: string, zip: int) {
    if region == "Brussels" then Between(zip, 1000, 1299)
    else if region == "Flanders" then Between(zip, 1500, 3999) || Between(zip, 8000, 9999)
    else if region == "Wallonia" then Between(zip, 1300, 1499) || Between(zip, 4000, 7999)
    else false
  }

  /** The three regions split the codes 1000 to 9999 between them: each such
      code is in exactly one region, and any other code in none. */
  lemma RegionsPartition(zip: int)
    ensures (1000 <= zip <= 9999) <==> exists i :: 0 <= i < |Regions| && ZipCodeCondition(Regions[i], zip)
    ensures forall i, j :: 0 <= i < j < |Regions| ==>
      !(ZipCodeCondition(Regions[i], zip) && ZipCodeCondition(Regions[j], zip))
  {
    if 1000 <= zip <= 9999 {
      if zip <= 1299 { assert ZipCodeCondition(Regions[0], zip); }
      else if zip <= 1499 || 4000 <= zip <= 7999 { assert ZipCodeCondition(Regions[2], zip); }
      else { assert ZipCodeCondition(Regions[1], zip); }
    }
  }

  /** `next(filter(...))`: the first region, in list order, the code is in. */
  function FirstRegion(regions: seq<string>, zip: int): (r: Option<string>)
    ensures r.None? <==> forall i :: 0 <= i < |regions| ==> !ZipCodeCondition(regions[i], zip)
    ensures r.Some? ==> r.value in regions && ZipCodeCondition(r.value, zip)
  {
    if |regions| == 0 then None
    else if ZipCodeCondition(regions[0], zip) then Some(regions[0])
    else
      assert forall i :: 1 <= i < |regions| ==> regions[i] == regions[1..][i - 1];
      FirstRegion(regions[1..], zip)
  }

  /** The region of a zip code; `None` where `next` raises. */
  function FindRegion(zip: int): (r: Option<string>)
    ensures r.Some? <==> 1000 <= zip <= 9999
    ensures r.Some? ==> r.value in Regions && ZipCodeCondition(r.value, zip)
    ensures r.Some? ==> forall i :: 0 <= i < |Regions| && ZipCodeCondition(Regions[i], zip) ==> Regions[i] == r.value
  {
    RegionsPartition(zip);
    FirstRegion(Regions, zip)
  }

  // ----- status -----

  function Lower(c: char): char {
    if 'A' <= c <= 'Z' then (c as int + 32) as char else c
  }

  /** `str.casefold`, on ASCII letters. */
  function CaseFold(s: string): (r: string)
    ensures |r| == |s|
  {
    seq(|s|, i requires 0 <= i < |s| => Lower(s[i]))
  }

  /** The two statuses the regulator's extractor writes fold to the values
      counted here. */
  lemma StatusesFold()
    ensures CaseFold("ACTIVE") == "active"
    ensures CaseFold("TEMPORARILY_SUSPENDED") == "temporarily_suspended"
    ensures CaseFold("active") == "active"
  {
  }

  /** `CaseFold(s) == t`, stated character by character. */
  predicate FoldsTo(s: string, t: string)
    decreases |s|
  {
    if |s| == 0 then |t| == 0
    else |t| > 0 && Lower(s[0]) == t[0] && FoldsTo(s[1..], t[1..])
  }

  lemma {:induction false} FoldsToIff(s: string, t: string)
    ensures FoldsTo(s, t) <==> CaseFold(s) == t
    decreases |s|
  {
    if |s| > 0 && |t| > 0 {
      FoldsToIff(s[1..], t[1..]);
      assert CaseFold(s) == [Lower(s[0])] + CaseFold(s[1..]);
      assert t == [t[0]] + t[1..];
    }
  }

  // ----- counting -----

  /** What a count selects: the records of a zip code, and among them the active
      and the temporarily suspended ones. */
  datatype Criterion = ZipIs(zip: int) | ActiveIn(zip: int) | SuspendedIn(zip: int)

  predicate Holds(c: Criterion, p: Pharmacy) {
    match c
    case ZipIs(z) => p.zipCode == z
    case ActiveIn(z) => p.zipCode == z && FoldsTo(p.status, "active")
    case SuspendedIn(z) => p.zipCode == z && FoldsTo(p.status, "temporarily_suspended")
  }

  function Count(s: seq<Pharmacy>, c: Criterion): (n: nat)
    ensures n <= |s|
  {
    if |s| == 0 then 0 else (if Holds(c, s[0]) then 1 else 0) + Count(s[1..], c)
  }

  lemma {:induction false} CountAppend(a: seq<Pharmacy>, b: seq<Pharmacy>, c: Criterion)
    ensures Count(a + b, c) == Count(a, c) + Count(b, c)
    decreases |a|
  {
    if |a| == 0 {
      assert a + b == b;
    } else {
      CountAppend(a[1..], b, c);
      assert (a + b)[0] == a[0];
      assert (a + b)[1..] == a[1..] + b;
    }
  }

  lemma {:induction false} CountNone(s: seq<Pharmacy>, c: Criterion)
    requires forall i :: 0 <= i < |s| ==> !Holds(c, s[i])
    ensures Count(s, c) == 0
    decreases |s|
  {
    if |s| > 0 {
      CountNone(s[1..], c);
    }
  }

  lemma {:induction false} CountAll(s: seq<Pharmacy>, c: Criterion)
    requires forall i :: 0 <= i < |s| ==> Holds(c, s[i])
    ensures Count(s, c) == |s|
    decreases |s|
  {
    if |s| > 0 {
      CountAll(s[1..], c);
    }
  }

  lemma RemoveAt<T>(t: seq<T>, k: nat)
    requires k < |t|
    ensures multiset(t[..k] + t[k + 1..]) == multiset(t) - multiset{t[k]}
  {
    assert t == t[..k] + [t[k]] + t[k + 1..];
  }

  lemma CountSplit(t: seq<Pharmacy>, k: nat, c: Criterion)
    requires k < |t|
    ensures Count(t, c) == Count(t[..k] + t[k + 1..], c) + (if Holds(c, t[k]) then 1 else 0)
  {
    assert t == t[..k] + ([t[k]] + t[k + 1..]);
    CountAppend(t[..k], [t[k]] + t[k + 1..], c);
    CountAppend(t[..k], t[k + 1..], c);
    assert ([t[k]] + t[k + 1..])[1..] == t[k + 1..];
  }

  /** Taking the same element out of two permutations of each other leaves two
      permutations of each other. */
  lemma PermutationTail<T>(s: seq<T>, t: seq<T>, k: nat)
    requires multiset(s) == multiset(t) && |s| > 0
    requires k < |t| && t[k] == s[0]
    ensures multiset(s[1..]) == multiset(t[..k] + t[k + 1..])
  {
    RemoveAt(t, k);
    assert s == [s[0]] + s[1..];
    assert multiset(s) == multiset{s[0]} + multiset(s[1..]);
  }

  lemma CountPermutationStep(s: seq<Pharmacy>, t: seq<Pharmacy>, k: nat, c: Criterion)
    requires |s| > 0 && k < |t| && t[k] == s[0]
    requires Count(s[1..], c) == Count(t[..k] + t[k + 1..], c)
    ensures Count(s, c) == Count(t, c)
  {
    CountSplit(t, k, c);
  }

  /** Counts do not depend on the order of the records. */
  lemma {:induction false} CountPermutation(s: seq<Pharmacy>, t: seq<Pharmacy>, c: Criterion)
    requires multiset(s) == multiset(t)
    ensures Count(s, c) == Count(t, c)
    decreases |s|
  {
    if |s| == 0 {
      assert |t| == |multiset(t)| == 0;
    } else {
      assert s[0] in multiset(t);
      var k :| 0 <= k < |t| && t[k] == s[0];
      PermutationTail(s, t, k);
      CountPermutation(s[1..], t[..k] + t[k + 1..], c);
      CountPermutationStep(s, t, k, c);
    }
  }

  /** A record is never both active and temporarily suspended. */
  lemma {:induction false} CountExclusive(s: seq<Pharmacy>, zip: int)
    ensures Count(s, ActiveIn(zip)) + Count(s, SuspendedIn(zip)) <= Count(s, ZipIs(zip))
    decreases |s|
  {
    if |s| > 0 {
      FoldsToIff(s[0].status, "active");
      FoldsToIff(s[0].status, "temporarily_suspended");
      CountExclusive(s[1..], zip);
    }
  }

  /** Each of the two statuses the regulator's extractor writes folds to
      exactly one of the two counted values. */
  lemma StatusKinds(status: string)
    requires status == "ACTIVE" || status == "TEMPORARILY_SUSPENDED"
    ensures FoldsTo(status, "active") != FoldsTo(status, "temporarily_suspended")
  {
    StatusesFold();
    FoldsToIff(status, "active");
    FoldsToIff(status, "temporarily_suspended");
    assert CaseFold("TEMPORARILY_SUSPENDED") != "active";
  }

  /** When every status is one the regulator's extractor writes, each record
      of a zip code is either active or temporarily suspended. */
  lemma {:induction false} CountComplete(s: seq<Pharmacy>, zip: int)
    requires forall i :: 0 <= i < |s| ==> s[i].status == "ACTIVE" || s[i].status == "TEMPORARILY_SUSPENDED"
    ensures Count(s, ActiveIn(zip)) + Count(s, SuspendedIn(zip)) == Count(s, ZipIs(zip))
    decreases |s|
  {
    if |s| > 0 {
      StatusKinds(s[0].status);
      CountComplete(s[1..], zip);
    }
  }

  // ----- generate_stats_for_each_zipCode -----

  /** The counts of one zip code. */
  datatype ZipStats = ZipStats(municipality: string, total: nat, active: nat, suspended: nat)

  /** The sort key `(zipCode, authorization_id)`. */
  function StatsLt(a: Pharmacy, b: Pharmacy): bool {
    a.zipCode < b.zipCode || (a.zipCode == b.zipCode && a.authorizationId < b.authorizationId)
  }

  lemma StatsLtOrder()
    ensures StrictWeakOrder(StatsLt)
  {
  }

  predicate ZipSorted(s: seq<Pharmacy>) {
    forall i, j :: 0 <= i < j < |s| ==> s[i].zipCode <= s[j].zipCode
  }

  /** The length of the leading run of records sharing the first one's zip code. */
  function RunLength(s: seq<Pharmacy>): (n: nat)
    requires |s| > 0
    ensures 1 <= n <= |s|
    ensures forall i :: 0 <= i < n ==> s[i].zipCode == s[0].zipCode
    ensures n < |s| ==> s[n].zipCode != s[0].zipCode
    decreases |s|
  {
    if |s| == 1 || s[1].zipCode != s[0].zipCode then 1
    else
      var m := RunLength(s[1..]);
      assert forall i :: 1 <= i < m + 1 ==> s[i] == s[1..][i - 1];
      m + 1
  }

  /** `groupby(s, zipCode)`: the maximal runs of records sharing a zip code. */
  function Groups(s: seq<Pharmacy>): (r: seq<seq<Pharmacy>>)
    ensures forall i :: 0 <= i < |r| ==> |r[i]| > 0
    ensures |s| > 0 ==> |r| > 0 && r[0][0] == s[0]
    decreases |s|
  {
    if |s| == 0 then []
    else
      var n := RunLength(s);
      var rest := Groups(s[n..]);
      assert |rest| > 0 ==> rest[0][0] == s[n];
      [s[..n]] + rest
  }

  function Flatten(gs: seq<seq<Pharmacy>>): seq<Pharmacy> {
    if |gs| == 0 then [] else gs[0] + Flatten(gs[1..])
  }

  /** Each group is a maximal run: its records share one zip code, and two
      neighbouring groups have different ones. */
  lemma {:induction false} GroupsAreRuns(s: seq<Pharmacy>)
    ensures forall i, k :: 0 <= i < |Groups(s)| && 0 <= k < |Groups(s)[i]| ==>
      Groups(s)[i][k].zipCode == Groups(s)[i][0].zipCode
    ensures forall i :: 0 <= i < |Groups(s)| - 1 ==> Groups(s)[i][0].zipCode != Groups(s)[i + 1][0].zipCode
    decreases |s|
  {
    if |s| > 0 {
      var n := RunLength(s);
      GroupsUnfold(s);
      GroupsAreRuns(s[n..]);
      var g: seq<seq<Pharmacy>>, gr: seq<seq<Pharmacy>> := Groups(s), Groups(s[n..]);
      forall i | 0 <= i < |g| ensures forall k :: 0 <= k < |g[i]| ==> g[i][k].zipCode == g[i][0].zipCode {
        if i > 0 { assert g[i] == gr[i - 1]; }
      }
      forall i | 0 <= i < |g| - 1 ensures g[i][0].zipCode != g[i + 1][0].zipCode {
        assert g[i + 1] == gr[i];
        if i > 0 { assert g[i] == gr[i - 1]; } else { assert gr[0][0] == s[n]; }
      }
    }
  }

  lemma GroupsUnfold(s: seq<Pharmacy>)
    requires |s| > 0
    ensures Groups(s) == [s[..RunLength(s)]] + Groups(s[RunLength(s)..])
  {
  }

  lemma FlattenCons(a: seq<Pharmacy>, gs: seq<seq<Pharmacy>>)
    ensures Flatten([a] + gs) == a + Flatten(gs)
  {
    assert ([a] + gs)[1..] == gs;
  }

  /** Concatenating the groups gives back the list. */
  lemma {:induction false} GroupsFlatten(s: seq<Pharmacy>)
    ensures Flatten(Groups(s)) == s
    decreases |s|
  {
    if |s| > 0 {
      var n := RunLength(s);
      calc {
        Flatten(Groups(s));
      == { GroupsUnfold(s); }
        Flatten([s[..n]] + Groups(s[n..]));
      == { FlattenCons(s[..n], Groups(s[n..])); }
        s[..n] + Flatten(Groups(s[n..]));
      == { GroupsFlatten(s[n..]); }
        s[..n] + s[n..];
      }
      assert s[..n] + s[n..] == s;
    }
  }

  /** The first step of grouping a list sorted on zip code: the leading run,
      then records of larger codes only. */
  lemma SplitRun(s: seq<Pharmacy>)
    requires ZipSorted(s) && |s| > 0
    ensures ZipSorted(s[RunLength(s)..])
    ensures forall j :: RunLength(s) <= j < |s| ==> s[j].zipCode > s[0].zipCode
  {
  }

  /** Grouping a list sorted on zip code gives strictly ascending codes, the
      first being that of the first record. */
  lemma {:induction false} GroupsAscending(s: seq<Pharmacy>)
    requires ZipSorted(s)
    ensures forall i :: 0 <= i < |Groups(s)| ==> s[0].zipCode <= Groups(s)[i][0].zipCode
    ensures forall i, j :: 0 <= i < j < |Groups(s)| ==> Groups(s)[i][0].zipCode < Groups(s)[j][0].zipCode
    decreases |s|
  {
    if |s| > 0 {
      var n := RunLength(s);
      SplitRun(s);
      var rest := s[n..];
      GroupsAscending(rest);
      var g: seq<seq<Pharmacy>>, gr: seq<seq<Pharmacy>> := Groups(s), Groups(rest);
      assert g == [s[..n]] + gr;
      forall i | 0 <= i < |gr| ensures gr[i][0].zipCode > s[0].zipCode {
        assert rest[0] == s[n];
      }
      forall i, j | 0 <= i < j < |g| ensures g[i][0].zipCode < g[j][0].zipCode {
        assert g[j] == gr[j - 1];
        if i > 0 { assert g[i] == gr[i - 1]; }
      }
    }
  }

  predicate HasZip(s: seq<Pharmacy>, zip: int) {
    exists j :: 0 <= j < |s| && s[j].zipCode == zip
  }

  predicate HasGroup(gs: seq<seq<Pharmacy>>, zip: int) {
    exists i :: 0 <= i < |gs| && |gs[i]| > 0 && gs[i][0].zipCode == zip
  }

  lemma {:induction false} GroupOfZip(s: seq<Pharmacy>, zip: int)
    requires HasZip(s, zip)
    ensures HasGroup(Groups(s), zip)
    decreases |s|
  {
    var n := RunLength(s);
    var g: seq<seq<Pharmacy>>, gr: seq<seq<Pharmacy>> := Groups(s), Groups(s[n..]);
    assert g == [s[..n]] + gr;
    var j :| 0 <= j < |s| && s[j].zipCode == zip;
    if j < n {
      assert g[0][0].zipCode == zip;
    } else {
      assert s[n..][j - n] == s[j];
      GroupOfZip(s[n..], zip);
      var i :| 0 <= i < |gr| && |gr[i]| > 0 && gr[i][0].zipCode == zip;
      assert g[i + 1] == gr[i];
    }
  }

  lemma {:induction false} ZipOfGroup(s: seq<Pharmacy>, zip: int)
    requires HasGroup(Groups(s), zip)
    ensures HasZip(s, zip)
    decreases |s|
  {
    assert |s| > 0;
    var n := RunLength(s);
    var g: seq<seq<Pharmacy>>, gr: seq<seq<Pharmacy>> := Groups(s), Groups(s[n..]);
    GroupsUnfold(s);
    var i :| 0 <= i < |g| && |g[i]| > 0 && g[i][0].zipCode == zip;
    if i == 0 {
      assert s[0].zipCode == zip;
    } else {
      assert gr[i - 1] == g[i];
      ZipOfGroup(s[n..], zip);
      var j :| 0 <= j < |s[n..]| && s[n..][j].zipCode == zip;
      assert s[n + j] == s[n..][j];
    }
  }

  /** The zip code a criterion selects. */
  function CriterionZip(c: Criterion): int {
    c.zip
  }

  lemma CountOtherZip(s: seq<Pharmacy>, c: Criterion)
    requires forall k :: 0 <= k < |s| ==> s[k].zipCode != CriterionZip(c)
    ensures Count(s, c) == 0
  {
    CountNone(s, c);
  }

  /** On a list sorted on zip code, a group holds every record of its zip code:
      any count about that code is the same over the group as over the list. */
  lemma {:induction false} GroupCounts(s: seq<Pharmacy>, i: nat, c: Criterion)
    requires ZipSorted(s)
    requires i < |Groups(s)|
    requires CriterionZip(c) == Groups(s)[i][0].zipCode
    ensures Count(Groups(s)[i], c) == Count(s, c)
    decreases |s|
  {
    var n := RunLength(s);
    CountSplitAt(s, n, c);
    GroupsUnfold(s);
    if i == 0 {
      CountPastRun(s, c);
    } else {
      CountBeforeGroup(s, i, c);
      SplitRun(s);
      assert Groups(s)[i] == Groups(s[n..])[i - 1];
      GroupCounts(s[n..], i - 1, c);
    }
  }

  lemma CountSplitAt(s: seq<Pharmacy>, n: nat, c: Criterion)
    requires n <= |s|
    ensures Count(s, c) == Count(s[..n], c) + Count(s[n..], c)
  {
    assert s == s[..n] + s[n..];
    CountAppend(s[..n], s[n..], c);
  }

  /** On a sorted list, nothing after the leading run has its zip code. */
  lemma CountPastRun(s: seq<Pharmacy>, c: Criterion)
    requires ZipSorted(s) && |s| > 0
    requires CriterionZip(c) == s[0].zipCode
    ensures Count(s[RunLength(s)..], c) == 0
  {
    SplitRun(s);
    CountOtherZip(s[RunLength(s)..], c);
  }

  /** On a sorted list, the leading run has no record of a later group's zip code. */
  lemma CountBeforeGroup(s: seq<Pharmacy>, i: nat, c: Criterion)
    requires ZipSorted(s)
    requires 0 < i < |Groups(s)|
    requires CriterionZip(c) == Groups(s)[i][0].zipCode
    ensures Count(s[..RunLength(s)], c) == 0
  {
    var n := RunLength(s);
    var z := Groups(s)[i][0].zipCode;
    GroupsAscending(s);
    assert Groups(s)[0][0].zipCode < z;
    forall k | 0 <= k < n ensures s[..n][k].zipCode != z {
      assert s[..n][k].zipCode == s[0].zipCode;
    }
    CountOtherZip(s[..n], c);
  }

  /** The index of the first record of a zip code. */
  predicate FirstOfZip(s: seq<Pharmacy>, j: int, zip: int) {
    0 <= j < |s| && s[j].zipCode == zip && forall k :: 0 <= k < j ==> s[k].zipCode != zip
  }

  /** A group starts with the first record of its zip code. */
  lemma {:induction false} GroupFirst(s: seq<Pharmacy>, i: nat)
    requires ZipSorted(s)
    requires i < |Groups(s)|
    ensures exists j :: FirstOfZip(s, j, Groups(s)[i][0].zipCode) && s[j] == Groups(s)[i][0]
    decreases |s|
  {
    var n := RunLength(s);
    var rest := s[n..];
    SplitRun(s);
    var g: seq<seq<Pharmacy>>, gr: seq<seq<Pharmacy>> := Groups(s), Groups(rest);
    assert g == [s[..n]] + gr;
    var zip := g[i][0].zipCode;
    if i == 0 {
      assert FirstOfZip(s, 0, zip);
    } else {
      assert gr[i - 1] == g[i];
      GroupFirst(rest, i - 1);
      var j :| FirstOfZip(rest, j, zip) && rest[j] == g[i][0];
      assert s[n + j] == rest[j];
      assert FirstOfZip(s, n + j, zip) by {
        GroupsAscending(rest);
        assert rest[0] == s[n];
        forall k | 0 <= k < n + j ensures s[k].zipCode != zip {
          if k >= n { assert s[k] == rest[k - n]; }
        }
      }
    }
  }

  /** The entry of one group (never empty). */
  function Tally(items: seq<Pharmacy>): (r: ZipStats)
    requires |items| > 0
    ensures r.total == |items|
    ensures r.active + r.suspended <= r.total
  {
    var z := items[0].zipCode;
    CountExclusive(items, z);
    ZipStats(items[0].municipality, |items|, Count(items, ActiveIn(z)), Count(items, SuspendedIn(z)))
  }

  function SumTotals(r: seq<(int, ZipStats)>): nat {
    if |r| == 0 then 0 else r[0].1.total + SumTotals(r[1..])
  }

  predicate HasKey(r: seq<(int, ZipStats)>, zip: int) {
    exists i :: 0 <= i < |r| && r[i].0 == zip
  }

  function ZipEntries(gs: seq<seq<Pharmacy>>): (r: seq<(int, ZipStats)>)
    requires forall i :: 0 <= i < |gs| ==> |gs[i]| > 0
    ensures |r| == |gs|
  {
    seq(|gs|, i requires 0 <= i < |gs| => (gs[i][0].zipCode, Tally(gs[i])))
  }

  lemma {:induction false} SumTotalsFlatten(gs: seq<seq<Pharmacy>>)
    requires forall i :: 0 <= i < |gs| ==> |gs[i]| > 0
    ensures SumTotals(ZipEntries(gs)) == |Flatten(gs)|
    decreases |gs|
  {
    if |gs| > 0 {
      SumTotalsFlatten(gs[1..]);
      assert ZipEntries(gs)[1..] == ZipEntries(gs[1..]);
    }
  }

  /** Record `j` has the smallest authorization id among the records of its zip code. */
  predicate LeastOfZip(ps: seq<Pharmacy>, j: int) {
    0 <= j < |ps| && forall k :: 0 <= k < |ps| && ps[k].zipCode == ps[j].zipCode ==>
      ps[j].authorizationId <= ps[k].authorizationId
  }

  /** `m` is the municipality of a record of `zip` with the least authorization id. */
  ghost predicate MunicipalityOf(ps: seq<Pharmacy>, zip: int, m: string) {
    exists j :: LeastOfZip(ps, j) && ps[j].zipCode == zip && ps[j].municipality == m
  }

  /** The list sorted on `(zipCode, authorization_id)`. */
  function SortedForStats(ps: seq<Pharmacy>): (r: seq<Pharmacy>)
    ensures multiset(r) == multiset(ps)
    ensures Sorted(r, StatsLt) && ZipSorted(r)
  {
    StatsLtOrder();
    SortSorted(ps, StatsLt);
    StableSort(ps, StatsLt)
  }

  /** `generate_stats_for_each_zipCode`: one entry per zip code, in ascending
      order of code. */
  function StatsByZipCode(ps: seq<Pharmacy>): (r: seq<(int, ZipStats)>)
    ensures forall i, j :: 0 <= i < j < |r| ==> r[i].0 < r[j].0
    ensures forall zip :: HasKey(r, zip) <==> HasZip(ps, zip)
    ensures forall i :: 0 <= i < |r| ==>
      && r[i].1.total == Count(ps, ZipIs(r[i].0))
      && r[i].1.active == Count(ps, ActiveIn(r[i].0))
      && r[i].1.suspended == Count(ps, SuspendedIn(r[i].0))
    ensures forall i :: 0 <= i < |r| ==>
      MunicipalityOf(ps, r[i].0, r[i].1.municipality)
    ensures SumTotals(r) == |ps|
  {
    var sorted := SortedForStats(ps);
    EntriesAscending(ps);
    EntriesTotal(ps);
    EntriesKeys(ps);
    EntriesCounts(ps);
    EntriesMunicipality(ps);
    ZipEntries(Groups(sorted))
  }

  lemma EntriesAscending(ps: seq<Pharmacy>)
    ensures var r := ZipEntries(Groups(SortedForStats(ps)));
      forall i, j :: 0 <= i < j < |r| ==> r[i].0 < r[j].0
  {
    GroupsAscending(SortedForStats(ps));
  }

  lemma EntriesTotal(ps: seq<Pharmacy>)
    ensures SumTotals(ZipEntries(Groups(SortedForStats(ps)))) == |ps|
  {
    GroupsFlatten(SortedForStats(ps));
    SumTotalsFlatten(Groups(SortedForStats(ps)));
  }

  lemma EntriesKeys(ps: seq<Pharmacy>)
    ensures forall zip :: HasKey(ZipEntries(Groups(SortedForStats(ps))), zip) <==> HasZip(ps, zip)
  {
    forall zip ensures HasKey(ZipEntries(Groups(SortedForStats(ps))), zip) <==> HasZip(ps, zip) {
      KeysOfGroups(ps, zip);
    }
  }

  lemma EntriesCounts(ps: seq<Pharmacy>)
    ensures var r := ZipEntries(Groups(SortedForStats(ps)));
      forall i :: 0 <= i < |r| ==>
        && r[i].1.total == Count(ps, ZipIs(r[i].0))
        && r[i].1.active == Count(ps, ActiveIn(r[i].0))
        && r[i].1.suspended == Count(ps, SuspendedIn(r[i].0))
  {
    var sorted := SortedForStats(ps);
    var r := ZipEntries(Groups(sorted));
    forall i | 0 <= i < |r|
      ensures r[i].1.total == Count(ps, ZipIs(r[i].0))
      ensures r[i].1.active == Count(ps, ActiveIn(r[i].0))
      ensures r[i].1.suspended == Count(ps, SuspendedIn(r[i].0))
    {
      EntryCounts(ps, sorted, i);
    }
  }

  lemma EntriesMunicipality(ps: seq<Pharmacy>)
    ensures var r := ZipEntries(Groups(SortedForStats(ps)));
      forall i :: 0 <= i < |r| ==>
        MunicipalityOf(ps, r[i].0, r[i].1.municipality)
  {
    var sorted := SortedForStats(ps);
    var r := ZipEntries(Groups(sorted));
    forall i | 0 <= i < |r|
      ensures MunicipalityOf(ps, r[i].0, r[i].1.municipality)
    {
      EntryMunicipality(ps, sorted, i);
    }
  }

  /** A zip code is a key of the entries exactly when it heads a group. */
  lemma KeysAreGroups(g: seq<seq<Pharmacy>>, zip: int)
    requires forall i :: 0 <= i < |g| ==> |g[i]| > 0
    ensures HasKey(ZipEntries(g), zip) <==> HasGroup(g, zip)
  {
    var r := ZipEntries(g);
    if HasKey(r, zip) {
      var i :| 0 <= i < |r| && r[i].0 == zip;
      assert |g[i]| > 0 && g[i][0].zipCode == zip;
    }
    if HasGroup(g, zip) {
      var i :| 0 <= i < |g| && |g[i]| > 0 && g[i][0].zipCode == zip;
      assert r[i].0 == zip;
    }
  }

  /** Reordering a list keeps its zip codes. */
  lemma ZipsOfPermutation(ps: seq<Pharmacy>, sorted: seq<Pharmacy>, zip: int)
    requires multiset(sorted) == multiset(ps)
    ensures HasZip(sorted, zip) <==> HasZip(ps, zip)
  {
    if HasZip(sorted, zip) {
      var j :| 0 <= j < |sorted| && sorted[j].zipCode == zip;
      assert sorted[j] in multiset(ps);
      var k :| 0 <= k < |ps| && ps[k] == sorted[j];
    }
    if HasZip(ps, zip) {
      var j :| 0 <= j < |ps| && ps[j].zipCode == zip;
      assert ps[j] in multiset(sorted);
      var k :| 0 <= k < |sorted| && sorted[k] == ps[j];
    }
  }

  lemma KeysOfGroups(ps: seq<Pharmacy>, zip: int)
    ensures HasKey(ZipEntries(Groups(SortedForStats(ps))), zip) <==> HasZip(ps, zip)
  {
    var sorted := SortedForStats(ps);
    var g := Groups(sorted);
    KeysAreGroups(g, zip);
    if HasGroup(g, zip) { ZipOfGroup(sorted, zip); }
    if HasZip(sorted, zip) { GroupOfZip(sorted, zip); }
    ZipsOfPermutation(ps, sorted, zip);
  }

  lemma EntryCounts(ps: seq<Pharmacy>, sorted: seq<Pharmacy>, i: nat)
    requires sorted == SortedForStats(ps)
    requires i < |Groups(sorted)|
    ensures var e := ZipEntries(Groups(sorted))[i];
      && e.1.total == Count(ps, ZipIs(e.0))
      && e.1.active == Count(ps, ActiveIn(e.0))
      && e.1.suspended == Count(ps, SuspendedIn(e.0))
  {
    var g: seq<seq<Pharmacy>> := Groups(sorted);
    var z := g[i][0].zipCode;
    GroupsAreRuns(sorted);
    CountAll(g[i], ZipIs(z));
    GroupCounts(sorted, i, ZipIs(z));
    GroupCounts(sorted, i, ActiveIn(z));
    GroupCounts(sorted, i, SuspendedIn(z));
    CountPermutation(sorted, ps, ZipIs(z));
    CountPermutation(sorted, ps, ActiveIn(z));
    CountPermutation(sorted, ps, SuspendedIn(z));
  }

  lemma EntryMunicipality(ps: seq<Pharmacy>, sorted: seq<Pharmacy>, i: nat)
    requires sorted == SortedForStats(ps)
    requires i < |Groups(sorted)|
    ensures var e := ZipEntries(Groups(sorted))[i];
      MunicipalityOf(ps, e.0, e.1.municipality)
  {
    var g: seq<seq<Pharmacy>> := Groups(sorted);
    var z := g[i][0].zipCode;
    GroupFirst(sorted, i);
    var j :| FirstOfZip(sorted, j, z) && sorted[j] == g[i][0];
    assert sorted[j] in multiset(ps);
    var jj :| 0 <= jj < |ps| && ps[jj] == sorted[j];
    forall k | 0 <= k < |ps| && ps[k].zipCode == z
      ensures ps[jj].authorizationId <= ps[k].authorizationId
    {
      assert ps[k] in multiset(sorted);
      var m :| 0 <= m < |sorted| && sorted[m] == ps[k];
      if m != j {
        assert j < m;
        assert !StatsLt(sorted[m], sorted[j]);
      }
    }
    assert LeastOfZip(ps, jj);
  }

  // ----- region totals -----

  /** The counters kept per region. */
  datatype RegionStats = RegionStats(total: nat, active: nat, suspended: nat)

  const NoPharmacies := RegionStats(0, 0, 0)

  function Plus(a: RegionStats, st: ZipStats): RegionStats {
    RegionStats(a.total + st.total, a.active + st.active, a.suspended + st.suspended)
  }

  /** The counters stored under a region name, if any. */
  function Lookup(rs: seq<(string, RegionStats)>, region: string): (r: Option<RegionStats>)
    ensures r.None? <==> forall i :: 0 <= i < |rs| ==> rs[i].0 != region
  {
    if |rs| == 0 then None
    else if rs[0].0 == region then Some(rs[0].1)
    else Lookup(rs[1..], region)
  }

  predicate DistinctNames(rs: seq<(string, RegionStats)>) {
    forall i, j :: 0 <= i < j < |rs| ==> rs[i].0 != rs[j].0
  }

  /** `stats[key].get(region, zeros)`, incremented by one zip code's counts and
      stored back: in place when the region is present, appended otherwise. */
  function AddTo(rs: seq<(string, RegionStats)>, region: string, st: ZipStats): (r: seq<(string, RegionStats)>)
    requires DistinctNames(rs)
    ensures DistinctNames(r)
    ensures Lookup(r, region) == Some(Plus(Lookup(rs, region).GetOr(NoPharmacies), st))
    ensures forall other :: other != region ==> Lookup(r, other) == Lookup(rs, other)
  {
    if |rs| == 0 then [(region, Plus(NoPharmacies, st))]
    else if rs[0].0 == region then
      assert Lookup(rs[1..], region).None?;
      [(region, Plus(rs[0].1, st))] + rs[1..]
    else
      var tail := AddTo(rs[1..], region, st);
      assert Lookup(rs[1..], rs[0].0).None?;
      assert Lookup(tail, rs[0].0).None?;
      [rs[0]] + tail
  }

  /** The region loop of `main`: the zip code entries folded, in order, into
      per-region counters; a zip code outside every region stops the script. */
  /** Some entry's zip code is in no region. */
  predicate Unmapped(byZip: seq<(int, ZipStats)>) {
    exists i :: 0 <= i < |byZip| && FindRegion(byZip[i].0).None?
  }

  lemma UnmappedSnoc(byZip: seq<(int, ZipStats)>)
    requires |byZip| > 0
    ensures Unmapped(byZip)
      <==> Unmapped(byZip[..|byZip| - 1]) || FindRegion(byZip[|byZip| - 1].0).None?
  {
    var init := byZip[..|byZip| - 1];
    assert forall i :: 0 <= i < |init| ==> init[i] == byZip[i];
  }

  function RegionFold(byZip: seq<(int, ZipStats)>): (r: Result<seq<(string, RegionStats)>, StatsError>)
    ensures r.Failure? <==> Unmapped(byZip)
    ensures r.Success? ==> DistinctNames(r.value)
    decreases |byZip|
  {
    if |byZip| == 0 then Success([])
    else
      var init := byZip[..|byZip| - 1];
      var (zip, st) := byZip[|byZip| - 1];
      UnmappedSnoc(byZip);
      var acc :- RegionFold(init);
      match FindRegion(zip)
      case None => Failure(UnmappedZipCode(zip))
      case Some(region) => Success(AddTo(acc, region, st))
  }

  datatype StatsError = UnmappedZipCode(zip: int)

  /** The counters a region should hold: the sum over the zip codes in it. */
  function RegionSum(byZip: seq<(int, ZipStats)>, region: string): RegionStats
    decreases |byZip|
  {
    if |byZip| == 0 then NoPharmacies
    else
      var acc := RegionSum(byZip[..|byZip| - 1], region);
      var (zip, st) := byZip[|byZip| - 1];
      if FindRegion(zip) == Some(region) then Plus(acc, st) else acc
  }

  predicate InRegion(byZip: seq<(int, ZipStats)>, region: string) {
    exists i :: 0 <= i < |byZip| && FindRegion(byZip[i].0) == Some(region)
  }

  /** Each region present holds the sum over its zip codes; a region none of
      the zip codes is in is absent. */
  lemma {:induction false} RegionFoldSums(byZip: seq<(int, ZipStats)>, region: string)
    requires RegionFold(byZip).Success?
    ensures Lookup(RegionFold(byZip).value, region)
      == (if InRegion(byZip, region) then Some(RegionSum(byZip, region)) else None)
    decreases |byZip|
  {
    if |byZip| > 0 {
      var init := byZip[..|byZip| - 1];
      var last := byZip[|byZip| - 1];
      assert forall i :: 0 <= i < |init| ==> init[i] == byZip[i];
      assert RegionFold(init).Success?;
      var acc := RegionFold(init).value;
      var found := FindRegion(last.0);
      assert found.Some?;
      assert RegionFold(byZip).value == AddTo(acc, found.value, last.1);
      RegionFoldSums(init, region);
      InRegionSnoc(byZip, region);
      if found == Some(region) {
        assert RegionSum(byZip, region) == Plus(RegionSum(init, region), last.1);
        if !InRegion(init, region) {
          NoSumOutside(init, region);
        }
      } else {
        assert RegionSum(byZip, region) == RegionSum(init, region);
      }
    }
  }

  lemma InRegionSnoc(byZip: seq<(int, ZipStats)>, region: string)
    requires |byZip| > 0
    ensures InRegion(byZip, region) <==>
      InRegion(byZip[..|byZip| - 1], region) || FindRegion(byZip[|byZip| - 1].0) == Some(region)
  {
    var init := byZip[..|byZip| - 1];
    if InRegion(byZip, region) {
      var i :| 0 <= i < |byZip| && FindRegion(byZip[i].0) == Some(region);
      if i < |init| { assert init[i] == byZip[i]; }
    }
    if InRegion(init, region) {
      var i :| 0 <= i < |init| && FindRegion(init[i].0) == Some(region);
      assert init[i] == byZip[i];
    }
  }

  lemma {:induction false} NoSumOutside(byZip: seq<(int, ZipStats)>, region: string)
    requires !InRegion(byZip, region)
    ensures RegionSum(byZip, region) == NoPharmacies
    decreases |byZip|
  {
    if |byZip| > 0 {
      var init := byZip[..|byZip| - 1];
      assert forall i :: 0 <= i < |init| ==> init[i] == byZip[i];
      assert !InRegion(init, region);
      NoSumOutside(init, region);
    }
  }

  function RegionTotals(rs: seq<(string, RegionStats)>): nat {
    if |rs| == 0 then 0 else rs[0].1.total + RegionTotals(rs[1..])
  }

  lemma {:induction false} AddToTotal(rs: seq<(string, RegionStats)>, region: string, st: ZipStats)
    requires DistinctNames(rs)
    ensures RegionTotals(AddTo(rs, region, st)) == RegionTotals(rs) + st.total
    decreases |rs|
  {
    if |rs| > 0 && rs[0].0 != region {
      AddToTotal(rs[1..], region, st);
      assert AddTo(rs, region, st)[1..] == AddTo(rs[1..], region, st);
    } else if |rs| > 0 {
      assert AddTo(rs, region, st)[1..] == rs[1..];
    }
  }

  lemma {:induction false} SumTotalsSnoc(byZip: seq<(int, ZipStats)>)
    requires |byZip| > 0
    ensures SumTotals(byZip) == SumTotals(byZip[..|byZip| - 1]) + byZip[|byZip| - 1].1.total
    decreases |byZip|
  {
    if |byZip| > 1 {
      SumTotalsSnoc(byZip[1..]);
      assert byZip[1..][..|byZip| - 2] == byZip[..|byZip| - 1][1..];
    }
  }

  /** Every zip code's pharmacies are added to exactly one region: the region
      totals add up to the zip code totals. */
  lemma {:induction false} RegionFoldTotal(byZip: seq<(int, ZipStats)>)
    requires RegionFold(byZip).Success?
    ensures RegionTotals(RegionFold(byZip).value) == SumTotals(byZip)
    decreases |byZip|
  {
    if |byZip| > 0 {
      var init := byZip[..|byZip| - 1];
      var last := byZip[|byZip| - 1];
      assert forall i :: 0 <= i < |init| ==> init[i] == byZip[i];
      RegionFoldTotal(init);
      var found := FindRegion(last.0);
      AddToTotal(RegionFold(init).value, found.value, last.1);
      SumTotalsSnoc(byZip);
    }
  }

  // ----- main -----

  /** The entry stored under the run's key. */
  datatype Snapshot = Snapshot(
    sourceFile: string,
    lastModification: string,
    byZip: seq<(int, ZipStats)>,
    regions: seq<(string, RegionStats)>)

  /** The statistics file: one snapshot per key. */
  type StatsFile = map<string, Snapshot>

  /** The key of a run: what follows "pharmacies-" in the input file name up to
      its last ".json", or today's date (`dd-mm-YYYY`, a parameter). */
  function RunKey(name: string, today: string): (r: string)
    ensures MatchRunKey(name).Some? ==> r == MatchRunKey(name).value
    ensures MatchRunKey(name).None? ==> r == today
  {
    MatchRunKey(name).GetOr(today)
  }

  /** Some record's zip code is outside 1000 to 9999. */
  predicate OutOfRange(ps: seq<Pharmacy>) {
    exists j :: 0 <= j < |ps| && !(1000 <= ps[j].zipCode <= 9999)
  }

  /** `main` after reading the files: the input's snapshot stored under the run's
      key, or an error when a zip code is in no region, in which case the file is
      not written. `now` is the modification time (`dd/mm/YYYY HH:MM:SS`). */
  function UpdateStats(stats: StatsFile, name: string, ps: seq<Pharmacy>, today: string, now: string)
    : (r: Result<StatsFile, StatsError>)
    ensures r.Failure? <==> OutOfRange(ps)
    ensures r.Success? ==> r.value.Keys == stats.Keys + {RunKey(name, today)}
    ensures r.Success? ==> forall k :: k in stats && k != RunKey(name, today) ==> r.value[k] == stats[k]
    ensures r.Success? ==>
      var snap := r.value[RunKey(name, today)];
      && snap.sourceFile == name && snap.lastModification == now
      && snap.byZip == StatsByZipCode(ps)
      && RegionTotals(snap.regions) == |ps|
  {
    var byZip := StatsByZipCode(ps);
    UnmappedIff(ps);
    var regions :- RegionFold(byZip);
    RegionFoldTotal(byZip);
    Success(stats[RunKey(name, today) := Snapshot(name, now, byZip, regions)])
  }

  /** Some zip code entry is in no region exactly when some record's code is
      outside 1000 to 9999. */
  lemma UnmappedIff(ps: seq<Pharmacy>)
    ensures Unmapped(StatsByZipCode(ps)) <==> OutOfRange(ps)
  {
    var r := StatsByZipCode(ps);
    if Unmapped(r) {
      var i :| 0 <= i < |r| && FindRegion(r[i].0).None?;
      assert HasKey(r, r[i].0);
      assert HasZip(ps, r[i].0);
    }
    if OutOfRange(ps) {
      var j :| 0 <= j < |ps| && !(1000 <= ps[j].zipCode <= 9999);
      assert HasZip(ps, ps[j].zipCode);
      assert HasKey(r, ps[j].zipCode);
      var i :| 0 <= i < |r| && r[i].0 == ps[j].zipCode;
      assert FindRegion(r[i].0).None?;
    }
  }

  /** A run succeeds exactly when the region fold does, and then stores one
      snapshot under the run's key. */
  lemma UpdateStatsStores(stats: StatsFile, name: string, ps: seq<Pharmacy>, today: string, now: string)
    ensures UpdateStats(stats, name, ps, today, now).Success? <==> RegionFold(StatsByZipCode(ps)).Success?
    ensures RegionFold(StatsByZipCode(ps)).Success? ==>
      UpdateStats(stats, name, ps, today, now)
        == Success(stats[RunKey(name, today) := Snapshot(name, now, StatsByZipCode(ps), RegionFold(StatsByZipCode(ps)).value)])
  {
  }

  /** Re-running on the same input, file name and dates leaves the file as the
      first run left it. */
  lemma UpdateIdempotent(stats: StatsFile, name: string, ps: seq<Pharmacy>, today: string, now: string)
    requires UpdateStats(stats, name, ps, today, now).Success?
    ensures UpdateStats(UpdateStats(stats, name, ps, today, now).value, name, ps, today, now)
      == UpdateStats(stats, name, ps, today, now)
  {
    var key := RunKey(name, today);
    UpdateStatsStores(stats, name, ps, today, now);
    var snap := Snapshot(name, now, StatsByZipCode(ps), RegionFold(StatsByZipCode(ps)).value);
    var once := stats[key := snap];
    UpdateStatsStores(once, name, ps, today, now);
    assert once[key := snap] == once;
  }

  /** Each region's counters are the sums over its zip codes, and a region
      appears only when one of the input's zip codes is in it. */
  lemma SnapshotRegions(stats: StatsFile, name: string, ps: seq<Pharmacy>, today: string, now: string, region: string)
    requires UpdateStats(stats, name, ps, today, now).Success?
    ensures var snap := UpdateStats(stats, name, ps, today, now).value[RunKey(name, today)];
      Lookup(snap.regions, region)
        == (if InRegion(snap.byZip, region) then Some(RegionSum(snap.byZip, region)) else None)
  {
    RegionFoldSums(StatsByZipCode(ps), region);
  }
}
