/** The three regular expressions of the repository, as greedy scans over the
    string. Python's `.` matches every character but a newline, `\s` every
    whitespace character, and `.+` / `.*` first take as much as they can, then
    give characters back until the rest of the pattern matches. */
module Patterns {
  import opened Wrappers

  /** `\s` on a `str` pattern: the characters for which `str.isspace()` holds. */
  predicate IsSpace(c: char) {
    var n := c as int;
    || (9 <= n <= 13) || (28 <= n <= 32) || n == 0x85 || n == 0xA0 || n == 0x1680
    || (0x2000 <= n <= 0x200A) || n == 0x2028 || n == 0x2029 || n == 0x202F
    || n == 0x205F || n == 0x3000
  }

  predicate NoNewline(s: string) {
    forall i :: 0 <= i < |s| ==> s[i] != '\n'
  }

  /** One pattern element that matches exactly one character. */
  datatype Tok = Lit(c: char) | Space | Dot

  predicate TokMatches(t: Tok, c: char) {
    match t
    case Lit(d) => c == d
    case Space => IsSpace(c)
    case Dot => c != '\n'
  }

  function Lits(s: string): (r: seq<Tok>)
    ensures |r| == |s|
    ensures forall i :: 0 <= i < |s| ==> r[i] == Lit(s[i])
  {
    seq(|s|, i requires 0 <= i < |s| => Lit(s[i]))
  }

  /** The marker `m` matches `s` at position `i`. */
  predicate MarkerAt(s: string, i: nat, m: seq<Tok>) {
    i + |m| <= |s| && forall j :: 0 <= j < |m| ==> TokMatches(m[j], s[i + j])
  }

  /** `.+\)` from position `q` can end with the `)` at position `e`. */
  predicate CloseAt(s: string, q: nat, e: nat) {
    q < e < |s| && s[e] == ')' && NoNewline(s[q..e])
  }

  function LastCloseBelow(s: string, q: nat, e: int): (r: Option<nat>)
    decreases e
    ensures r.Some? ==>
      && q < r.value <= e && CloseAt(s, q, r.value)
      && forall e' :: r.value < e' <= e ==> !CloseAt(s, q, e')
    ensures r.None? ==> forall e' :: q < e' <= e ==> !CloseAt(s, q, e')
  {
    if e <= q then None
    else if CloseAt(s, q, e) then Some(e)
    else LastCloseBelow(s, q, e - 1)
  }

  /** Greedy `.+\)` from `q`: the last `)` reachable without crossing a newline. */
  function CloseEnd(s: string, q: nat): (r: Option<nat>)
    ensures r.Some? ==> CloseAt(s, q, r.value) && forall e :: r.value < e ==> !CloseAt(s, q, e)
    ensures r.None? ==> forall e :: !CloseAt(s, q, e)
  {
    LastCloseBelow(s, q, |s| - 1)
  }

  /** A run of non-newline characters from `from` to `l`, then the marker `m`,
      then (when `tail`) a non-empty `.+\)`. */
  predicate GapOk(s: string, from: nat, l: nat, m: seq<Tok>, tail: bool) {
    from <= l <= |s| && NoNewline(s[from..l]) && MarkerAt(s, l, m)
      && (tail ==> CloseEnd(s, l + |m|).Some?)
  }

  function LastGap(s: string, from: nat, lo: nat, m: seq<Tok>, tail: bool, l: int): (r: Option<nat>)
    requires from <= lo
    decreases l
    ensures r.Some? ==>
      && lo <= r.value <= l && GapOk(s, from, r.value, m, tail)
      && forall l' :: r.value < l' <= l ==> !GapOk(s, from, l', m, tail)
    ensures r.None? ==> forall l' :: lo <= l' <= l ==> !GapOk(s, from, l', m, tail)
  {
    if l < lo then None
    else if GapOk(s, from, l, m, tail) then Some(l)
    else LastGap(s, from, lo, m, tail, l - 1)
  }

  /** Greedy `.+` (`lo == from + 1`) or `.*` (`lo == from`) before the marker:
      the longest run that lets the rest of the pattern match. */
  function GreedyGap(s: string, from: nat, lo: nat, m: seq<Tok>, tail: bool): (r: Option<nat>)
    requires from <= lo
    ensures r.Some? ==>
      && lo <= r.value && GapOk(s, from, r.value, m, tail)
      && forall l' :: r.value < l' ==> !GapOk(s, from, l', m, tail)
    ensures r.None? ==> forall l' :: lo <= l' ==> !GapOk(s, from, l', m, tail)
  {
    LastGap(s, from, lo, m, tail, |s|)
  }

  // ----- "(?P<name>.+)\s\(KBO-BCE\s:\s(?P<cbe>.+)\)" with re.match -----

  const KboMarker: seq<Tok> := [Space] + Lits("(KBO-BCE") + [Space, Lit(':'), Space]

  /** The holder/operator pattern: the name and the enterprise number, or
      `None` when the string does not match. */
  function MatchKbo(s: string): (r: Option<(string, string)>)
    ensures r.Some? ==>
      var (n, c) := r.value;
      && 1 <= |n| && |n| + 12 + |c| < |s|
      && s[..|n|] == n && NoNewline(n) && MarkerAt(s, |n|, KboMarker)
      && s[|n| + 12..|n| + 12 + |c|] == c && NoNewline(c) && |c| >= 1
      && s[|n| + 12 + |c|] == ')'
  {
    match GreedyGap(s, 0, 1, KboMarker, true)
    case None => None
    case Some(l) =>
      var e := CloseEnd(s, l + |KboMarker|).value;
      Some((s[..l], s[l + |KboMarker|..e]))
  }

  function KboText(n: string, c: string): string {
    n + " (KBO-BCE : " + c + ")"
  }

  /** A well-formed holder string gives back its name and enterprise number. */
  lemma KboRoundTrip(n: string, c: string)
    requires |n| >= 1 && NoNewline(n)
    requires |c| >= 1 && NoNewline(c) && '(' !in c
    ensures MatchKbo(KboText(n, c)) == Some((n, c))
  {
    var s := KboText(n, c);
    var q := |n| + 12;
    assert |s| == q + |c| + 1;
    assert s[..|n|] == n;
    assert s[q..|s| - 1] == c;
    assert forall j :: 0 <= j < 12 ==> s[|n| + j] == " (KBO-BCE : "[j];
    assert MarkerAt(s, |n|, KboMarker);
    assert CloseAt(s, q, |s| - 1);
    assert CloseEnd(s, q) == Some(|s| - 1);
    assert GapOk(s, 0, |n|, KboMarker, true);
    KboGapMaximal(n, c);
    assert GreedyGap(s, 0, 1, KboMarker, true) == Some(|n|);
  }

  /** No later marker fits: its `(` would land inside "KBO-BCE : ", inside the
      number, or on the final `)`. */
  lemma KboGapMaximal(n: string, c: string)
    requires '(' !in c
    ensures var s := KboText(n, c);
      forall l' :: |n| < l' ==> !MarkerAt(s, l', KboMarker)
  {
    var s := KboText(n, c);
    var q := |n| + 12;
    assert |s| == q + |c| + 1;
    forall l' | |n| < l' ensures !MarkerAt(s, l', KboMarker) {
      if l' + 12 <= |s| {
        var p := l' + 1;
        if p < q {
          assert s[p] == " (KBO-BCE : "[p - |n|];
        } else {
          assert s[p] == c[p - q];
        }
        assert !TokMatches(KboMarker[1], s[p]);
      }
    }
  }

  /** A string without an opening parenthesis (such as "Idem") never matches. */
  lemma KboNeedsParen(s: string)
    requires '(' !in s
    ensures MatchKbo(s) == None
  {
    forall l | 1 <= l ensures !GapOk(s, 0, l, KboMarker, true) {
      if l + |KboMarker| <= |s| {
        assert s[l + 1] in s;
        assert !TokMatches(KboMarker[1], s[l + 1]);
      }
    }
  }

  // ----- "pharmacies-(?P<key>.+).json" with re.match -----

  const Prefix: string := "pharmacies-"
  const JsonSuffix: seq<Tok> := [Dot] + Lits("json")

  /** The run key in a file name, or `None` when the name does not match. */
  function MatchRunKey(name: string): (r: Option<string>)
    ensures r.Some? ==>
      && |Prefix| + |r.value| + 5 <= |name|
      && name[..|Prefix|] == Prefix && |r.value| >= 1 && NoNewline(r.value)
      && name[|Prefix|..|Prefix| + |r.value|] == r.value
      && MarkerAt(name, |Prefix| + |r.value|, JsonSuffix)
    ensures (|name| < |Prefix| || name[..|Prefix|] != Prefix) ==> r.None?
  {
    if |name| < |Prefix| || name[..|Prefix|] != Prefix then None
    else match GreedyGap(name, |Prefix|, |Prefix| + 1, JsonSuffix, false)
      case None => None
      case Some(l) => Some(name[|Prefix|..l])
  }

  /** The file name written for run key `k` gives back `k`. */
  lemma RunKeyRoundTrip(k: string)
    requires |k| >= 1 && NoNewline(k)
    ensures MatchRunKey(Prefix + k + ".json") == Some(k)
  {
    var s := Prefix + k + ".json";
    var l := |Prefix| + |k|;
    assert s[..|Prefix|] == Prefix;
    assert s[|Prefix|..l] == k;
    assert forall j :: 0 <= j < 5 ==> s[l + j] == ".json"[j];
    assert MarkerAt(s, l, JsonSuffix);
    assert GapOk(s, |Prefix|, l, JsonSuffix, false);
    assert GreedyGap(s, |Prefix|, |Prefix| + 1, JsonSuffix, false) == Some(l);
  }

  // ----- "\(.*update\s:\s(?P<update_date>.+)\)" with re.search -----

  const UpdateMarker: seq<Tok> := Lits("update") + [Space, Lit(':'), Space]

  /** The pattern can start at position `p`. */
  predicate UpdateStartsAt(s: string, p: nat) {
    p < |s| && s[p] == '(' && GreedyGap(s, p + 1, p + 1, UpdateMarker, true).Some?
  }

  /** The pattern can start somewhere from position `p` on. */
  predicate UpdateFrom(s: string, p: nat) {
    exists p' :: p <= p' < |s| && UpdateStartsAt(s, p')
  }

  /** The date captured by the match starting at `p`. */
  function UpdateDateAt(s: string, p: nat): string
    requires UpdateStartsAt(s, p)
  {
    var l := GreedyGap(s, p + 1, p + 1, UpdateMarker, true).value;
    var e := CloseEnd(s, l + |UpdateMarker|).value;
    s[l + |UpdateMarker|..e]
  }

  function SearchUpdateFrom(s: string, p: nat): Option<string>
    decreases |s| - p
  {
    if p >= |s| then None
    else if UpdateStartsAt(s, p) then Some(UpdateDateAt(s, p))
    else SearchUpdateFrom(s, p + 1)
  }

  /** The footer's update date, from the leftmost `(` where the pattern matches;
      `None` when it matches nowhere. */
  function SearchUpdate(footer: string): (r: Option<string>)
    ensures r.Some? <==> UpdateFrom(footer, 0)
  {
    SearchFinds(footer, 0);
    SearchUpdateFrom(footer, 0)
  }

  /** The search from `p` finds something exactly when a match starts at or after `p`. */
  lemma {:induction false} SearchFinds(s: string, p: nat)
    decreases |s| - p
    ensures SearchUpdateFrom(s, p).Some? <==> UpdateFrom(s, p)
  {
    if p < |s| && !UpdateStartsAt(s, p) {
      SearchFinds(s, p + 1);
      assert UpdateFrom(s, p) ==> UpdateFrom(s, p + 1) by {
        if UpdateFrom(s, p) {
          var p' :| p <= p' < |s| && UpdateStartsAt(s, p');
          assert p' != p;
        }
      }
    }
  }

  /** A search from a position where no match starts moves on to the next one. */
  lemma SearchStep(s: string, p: nat)
    requires p < |s| && !UpdateStartsAt(s, p)
    ensures SearchUpdateFrom(s, p) == SearchUpdateFrom(s, p + 1)
  {
  }

  function FooterText(pre: string, mid: string, d: string): string {
    pre + "(" + mid + "update : " + d + ")"
  }

  /** In a well-formed footer the `.*` before the marker stops right before
      "update : ", and `.+\)` runs to the final `)`. */
  lemma UpdateGapOfFooter(pre: string, mid: string, d: string)
    requires NoNewline(mid)
    requires |d| >= 1 && NoNewline(d) && ':' !in d
    ensures var s := FooterText(pre, mid, d);
      var from := |pre| + 1;
      && GreedyGap(s, from, from, UpdateMarker, true) == Some(from + |mid|)
      && CloseEnd(s, from + |mid| + 9) == Some(|s| - 1)
  {
    var s := FooterText(pre, mid, d);
    var from := |pre| + 1;
    var l := from + |mid|;
    var q := l + 9;
    assert |s| == q + |d| + 1;
    assert s[from..l] == mid;
    assert s[q..|s| - 1] == d;
    assert forall j :: 0 <= j < 9 ==> s[l + j] == "update : "[j];
    assert MarkerAt(s, l, UpdateMarker);
    assert CloseAt(s, q, |s| - 1);
    assert CloseEnd(s, q) == Some(|s| - 1);
    assert GapOk(s, from, l, UpdateMarker, true);
    UpdateGapMaximal(pre, mid, d);
  }

  /** No later `update : ` fits: its `:` would land on a space, inside the
      date, or on the final `)`. */
  lemma UpdateGapMaximal(pre: string, mid: string, d: string)
    requires |d| >= 1 && ':' !in d
    ensures var s := FooterText(pre, mid, d);
      forall l' :: |pre| + 1 + |mid| < l' ==> !MarkerAt(s, l', UpdateMarker)
  {
    var s := FooterText(pre, mid, d);
    var l := |pre| + 1 + |mid|;
    var q := l + 9;
    assert |s| == q + |d| + 1;
    forall l' | l < l' ensures !MarkerAt(s, l', UpdateMarker) {
      if l' + 9 <= |s| {
        var c := l' + 7;
        if c < q {
          assert s[c] == "update : "[c - l];
        } else {
          assert s[c] == d[c - q];
        }
        assert !TokMatches(UpdateMarker[7], s[c]);
      }
    }
  }

  /** A well-formed footer gives back its date. */
  lemma UpdateRoundTrip(pre: string, mid: string, d: string)
    requires '(' !in pre && NoNewline(mid)
    requires |d| >= 1 && NoNewline(d) && ':' !in d
    ensures SearchUpdate(FooterText(pre, mid, d)) == Some(d)
  {
    var s := FooterText(pre, mid, d);
    var p := |pre|;
    var q := p + 1 + |mid| + 9;
    assert |s| == q + |d| + 1;
    assert s[p] == '(';
    assert s[q..|s| - 1] == d;
    UpdateGapOfFooter(pre, mid, d);
    assert UpdateStartsAt(s, p);
    assert UpdateDateAt(s, p) == d;
    forall p' | 0 <= p' < p ensures !UpdateStartsAt(s, p') {
      assert s[p'] == pre[p'];
      assert pre[p'] in pre;
    }
    UpdateSkip(s, 0, p);
    assert SearchUpdateFrom(s, p) == Some(d);
  }

  /** No match starts before `p`, so the search reaches `p`. */
  lemma {:induction false} UpdateSkip(s: string, from: nat, p: nat)
    requires from <= p < |s|
    requires forall p' :: from <= p' < p ==> !UpdateStartsAt(s, p')
    ensures SearchUpdateFrom(s, from) == SearchUpdateFrom(s, p)
    decreases p - from
  {
    if from < p {
      SearchStep(s, from);
      UpdateSkip(s, from + 1, p);
    }
  }

  /** A footer without an opening parenthesis never matches. */
  lemma UpdateNeedsParen(footer: string)
    requires '(' !in footer
    ensures SearchUpdate(footer) == None
  {
    forall p | 0 <= p < |footer| ensures !UpdateStartsAt(footer, p) {
      assert footer[p] in footer;
    }
  }
}
