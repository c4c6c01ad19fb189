/**
 The name-plausibility report: every truthy official's name is collected,
 flagged for three independent reasons, counted, and the single-word names are
 listed.
 */
module CheckOfficials {
  import opened Records
  import opened Text
  import Counting

  /** The six names treated as placeholders, compared after lower-casing. */
  const PlaceholderNames: seq<string> :=
    ["john doe", "jane doe", "jane smith", "john smith", "test name", "example name"]

  /** Why a name was flagged, in the order the checks run. */
  datatype Reason = CommonPlaceholder | RepetitivePattern | ContainsNumbers

  datatype SuspiciousName = SuspiciousName(school: string, position: string, name: string, reason: Reason)

  /** The whole lowered name equals one of the placeholders (not a substring test). */
  predicate IsPlaceholder(name: string) {
    Lower(name) in PlaceholderNames
  }

  /** Exactly two whitespace-separated tokens, equal including case. */
  predicate IsRepetitive(name: string) {
    var parts := Split(name);
    |parts| == 2 && parts[0] == parts[1]
  }

  /** `re.search(r'\d+$', name)`. */
  predicate HasTrailingNumber(name: string) {
    TrailingDigitsMatch(name)
  }

  predicate Flags(name: string, reason: Reason) {
    match reason
    case CommonPlaceholder => IsPlaceholder(name)
    case RepetitivePattern => IsRepetitive(name)
    case ContainsNumbers => HasTrailingNumber(name)
  }

  function Rank(reason: Reason): nat {
    match reason
    case CommonPlaceholder => 0
    case RepetitivePattern => 1
    case ContainsNumbers => 2
  }

  /** The suspicious-name entries one collected name produces. */
  function Suspicions(s: Sighting): (r: seq<SuspiciousName>)
    ensures forall k :: 0 <= k < |r| ==>
      r[k].school == s.school && r[k].position == s.position && r[k].name == s.name
    ensures forall k, l :: 0 <= k < l < |r| ==> Rank(r[k].reason) < Rank(r[l].reason)
    ensures forall k :: 0 <= k < |r| ==> Flags(s.name, r[k].reason)
  {
    FlagIf(Flags(s.name, CommonPlaceholder), s, CommonPlaceholder)
      + FlagIf(Flags(s.name, RepetitivePattern), s, RepetitivePattern)
      + FlagIf(Flags(s.name, ContainsNumbers), s, ContainsNumbers)
  }

  /** An entry comes from a name exactly when it carries that name's school,
      position and name and its reason's check holds: no check that holds is
      left out. */
  lemma SuspicionsMembership(s: Sighting, e: SuspiciousName)
    ensures e in Suspicions(s) <==> Sighting(e.school, e.position, e.name) == s && Flags(e.name, e.reason)
  {
    if e in Suspicions(s) {
      var k :| 0 <= k < |Suspicions(s)| && Suspicions(s)[k] == e;
    }
    if Sighting(e.school, e.position, e.name) == s && Flags(e.name, e.reason) {
      assert e == Flag(s, e.reason);
      FlaggedIsListed(s, e.reason);
    }
  }

  /** A check that holds of a name puts its entry in the name's suspicions. */
  lemma FlaggedIsListed(s: Sighting, reason: Reason)
    requires Flags(s.name, reason)
    ensures Flag(s, reason) in Suspicions(s)
  {
    var a := FlagIf(Flags(s.name, CommonPlaceholder), s, CommonPlaceholder);
    var b := FlagIf(Flags(s.name, RepetitivePattern), s, RepetitivePattern);
    var c := FlagIf(Flags(s.name, ContainsNumbers), s, ContainsNumbers);
    assert Suspicions(s) == a + b + c;
    match reason
    case CommonPlaceholder => assert Flag(s, reason) in a;
    case RepetitivePattern => assert Flag(s, reason) in b;
    case ContainsNumbers => assert Flag(s, reason) in c;
  }

  function FlagIf(b: bool, s: Sighting, reason: Reason): seq<SuspiciousName> {
    if b then [Flag(s, reason)] else []
  }

  function Flag(s: Sighting, reason: Reason): SuspiciousName {
    SuspiciousName(s.school, s.position, s.name, reason)
  }

  function Names(ss: seq<Sighting>): (r: seq<string>)
    ensures |r| == |ss|
    ensures forall k :: 0 <= k < |ss| ==> r[k] == ss[k].name
  {
    seq(|ss|, k requires 0 <= k < |ss| => ss[k].name)
  }

  /** `all_officials`. */
  function AllOfficials(results: seq<ScrapeRecord>): seq<string> {
    Names(Sightings(results))
  }

  function SuspicionsOf(ss: seq<Sighting>): seq<SuspiciousName> {
    if |ss| == 0 then [] else Suspicions(ss[0]) + SuspicionsOf(ss[1..])
  }

  /** `suspicious_names`. */
  function SuspiciousNames(results: seq<ScrapeRecord>): seq<SuspiciousName> {
    SuspicionsOf(Sightings(results))
  }

  /** `name_counts`. */
  function NameCounts(results: seq<ScrapeRecord>): Counting.Tally<string> {
    Counting.Count(AllOfficials(results))
  }

  /** `duplicate_officials`. */
  function DuplicateOfficials(results: seq<ScrapeRecord>): Counting.Tally<string> {
    Counting.Repeated(NameCounts(results))
  }

  /** `len(set(all_officials))`, never more than `len(all_officials)`. */
  function UniqueCount(results: seq<ScrapeRecord>): (n: nat)
    ensures n <= |AllOfficials(results)|
  {
    var all := AllOfficials(results);
    Counting.DistinctAtMostLength(all);
    |set x | x in all|
  }

  predicate IsSingleWord(name: string) {
    |Split(name)| == 1
  }

  function SingleWordNames(names: seq<string>): (r: seq<string>)
    ensures forall x :: x in r <==> x in names && IsSingleWord(x)
  {
    if |names| == 0 then []
    else (if IsSingleWord(names[0]) then [names[0]] else []) + SingleWordNames(names[1..])
  }

  /** `single_names`. */
  function SingleNames(results: seq<ScrapeRecord>): seq<string> {
    SingleWordNames(AllOfficials(results))
  }

  // ---------------------------------------------------------------------
  // Properties

  /** Names are collected in record order: the names of a concatenation of
      result lists are the names of the first list followed by the second's. */
  lemma AllOfficialsAppend(a: seq<ScrapeRecord>, b: seq<ScrapeRecord>)
    ensures AllOfficials(a + b) == AllOfficials(a) + AllOfficials(b)
  {
    SightingsAppend(a, b);
  }

  /** A successful record with an officials dict holds `name` at some position. */
  predicate HoldsName(results: seq<ScrapeRecord>, name: string) {
    exists i, j :: 0 <= i < |results| && HasOfficialsDict(results[i])
      && 0 <= j < |results[i].officials.entries|
      && results[i].officials.entries[j].1 == Some(name)
  }

  /** A name is collected exactly when a successful record with an officials
      dict has a position holding that non-empty name. */
  lemma AllOfficialsMembership(results: seq<ScrapeRecord>, name: string)
    ensures name in AllOfficials(results) <==> |name| > 0 && HoldsName(results, name)
  {
    if name in AllOfficials(results) {
      CollectedNameIsHeld(results, name);
    }
    if |name| > 0 && HoldsName(results, name) {
      HeldNameIsCollected(results, name);
    }
  }

  lemma CollectedNameIsHeld(results: seq<ScrapeRecord>, name: string)
    requires name in AllOfficials(results)
    ensures |name| > 0 && HoldsName(results, name)
  {
    var all := AllOfficials(results);
    var ss := Sightings(results);
    var k :| 0 <= k < |all| && all[k] == name;
    var s := ss[k];
    SightingsMembership(results, s);
    var i :| 0 <= i < |results| && s in RecordSightings(results[i]);
    var j :| 0 <= j < |results[i].officials.entries| && EntryYields(results[i].officials.entries[j], results[i].domain, s);
    assert results[i].officials.entries[j].1 == Some(name);
  }

  lemma HeldNameIsCollected(results: seq<ScrapeRecord>, name: string)
    requires |name| > 0 && HoldsName(results, name)
    ensures name in AllOfficials(results)
  {
    var ss := Sightings(results);
    var i, j :| 0 <= i < |results| && HasOfficialsDict(results[i])
      && 0 <= j < |results[i].officials.entries|
      && results[i].officials.entries[j].1 == Some(name);
    var s := Sighting(results[i].domain, results[i].officials.entries[j].0, name);
    assert EntryYields(results[i].officials.entries[j], results[i].domain, s);
    assert s in RecordSightings(results[i]);
    SightingsMembership(results, s);
    var k :| 0 <= k < |ss| && ss[k] == s;
    assert AllOfficials(results)[k] == name;
  }

  lemma {:induction false} SuspicionsOfMembership(ss: seq<Sighting>, e: SuspiciousName)
    ensures e in SuspicionsOf(ss) <==>
      Sighting(e.school, e.position, e.name) in ss && Flags(e.name, e.reason)
    decreases |ss|
  {
    if |ss| > 0 {
      SuspicionsOfMembership(ss[1..], e);
      SuspicionsMembership(ss[0], e);
      assert SuspicionsOf(ss) == Suspicions(ss[0]) + SuspicionsOf(ss[1..]);
      assert forall x :: x in ss <==> x == ss[0] || x in ss[1..];
    }
  }

  /** An entry is in `suspicious_names` exactly when its school, position and
      name were collected together and its reason's check holds of the name. */
  lemma SuspiciousNamesExact(results: seq<ScrapeRecord>, e: SuspiciousName)
    ensures e in SuspiciousNames(results) <==>
      Sighting(e.school, e.position, e.name) in Sightings(results) && Flags(e.name, e.reason)
  {
    SuspicionsOfMembership(Sightings(results), e);
  }

  /** `duplicate_officials` holds exactly the names collected more than once,
      each with its number of occurrences. */
  lemma DuplicateOfficialsExact(results: seq<ScrapeRecord>, name: string)
    ensures name in Counting.Keys(DuplicateOfficials(results)) <==> multiset(AllOfficials(results))[name] > 1
    ensures name in Counting.Keys(DuplicateOfficials(results)) ==>
      Counting.CountOf(DuplicateOfficials(results), name) == multiset(AllOfficials(results))[name]
  {
    Counting.RepeatedElements(AllOfficials(results), name);
  }

  /** The name counts add up to the number of collected names. */
  lemma NameCountsTotal(results: seq<ScrapeRecord>)
    ensures Counting.Total(NameCounts(results)) == |AllOfficials(results)|
  {
    Counting.CountTotal(AllOfficials(results));
  }

  /** `single_names` keeps duplicates: a single-word name occurs in it as often
      as it was collected, any other name not at all. */
  lemma {:induction false} SingleWordNamesCount(names: seq<string>, x: string)
    ensures multiset(SingleWordNames(names))[x] == if IsSingleWord(x) then multiset(names)[x] else 0
    decreases |names|
  {
    if |names| > 0 {
      SingleWordNamesCount(names[1..], x);
      assert names == [names[0]] + names[1..];
    }
  }

  lemma {:induction false} SingleWordNamesAppend(a: seq<string>, b: seq<string>)
    ensures SingleWordNames(a + b) == SingleWordNames(a) + SingleWordNames(b)
    decreases |a|
  {
    if |a| == 0 {
      assert a + b == b;
    } else {
      assert (a + b)[1..] == a[1..] + b;
      SingleWordNamesAppend(a[1..], b);
    }
  }

  /** `single_names` is `all_officials` restricted to one-token names, with
      duplicates and order kept. */
  lemma SingleNamesExact(results: seq<ScrapeRecord>, x: string)
    ensures multiset(SingleNames(results))[x] ==
      if |Split(x)| == 1 then multiset(AllOfficials(results))[x] else 0
  {
    SingleWordNamesCount(AllOfficials(results), x);
  }

  lemma TwoWordShape(p: string, w1: string, w2: string)
    requires IsWord(w1) && IsWord(w2) && w1 != w2 && IsLower(w2[|w2| - 1])
    requires p == w1 + " " + w2
    ensures |Split(p)| == 2 && Split(p)[0] != Split(p)[1]
    ensures |p| > 0 && IsLower(p[|p| - 1])
  {
    SplitTwoWords(w1, w2, []);
    assert w1 + " " + w2 + [] == p;
  }

  /** Every placeholder is two different words ending in a letter. */
  lemma PlaceholderShape(p: string)
    requires p in PlaceholderNames
    ensures |Split(p)| == 2 && Split(p)[0] != Split(p)[1]
    ensures |p| > 0 && IsLower(p[|p| - 1])
  {
    var k :| 0 <= k < |PlaceholderNames| && PlaceholderNames[k] == p;
    var w1, w2 := PlaceholderWords(k);
    TwoWordShape(p, w1, w2);
  }

  /** The two words of the `k`-th placeholder. */
  lemma PlaceholderWords(k: nat) returns (w1: string, w2: string)
    requires k < |PlaceholderNames|
    ensures IsWord(w1) && IsWord(w2) && w1 != w2 && IsLower(w2[|w2| - 1])
    ensures PlaceholderNames[k] == w1 + " " + w2
  {
    w1, w2 := ["john", "jane", "jane", "john", "test", "example"][k], ["doe", "doe", "smith", "smith", "name", "name"][k];
  }

  /** A placeholder name is never also repetitive or numbered, so although the
      three checks are independent, one name yields at most two entries. */
  lemma AtMostTwoReasons(s: Sighting)
    ensures IsPlaceholder(s.name) ==> !IsRepetitive(s.name) && !HasTrailingNumber(s.name)
    ensures |Suspicions(s)| <= 2
  {
    var name := s.name;
    if IsPlaceholder(name) {
      var p := Lower(name);
      PlaceholderShape(p);
      SplitLower(name);
      assert LowerAll(Split(name)) == Split(p);
      TrailingDigitsIff(name);
      assert LowerChar(name[|name| - 1]) == p[|p| - 1];
    }
  }

  /** The placeholder test ignores case: a name and its lower-cased form are
      flagged alike. */
  lemma PlaceholderIgnoresCase(name: string)
    ensures IsPlaceholder(name) <==> IsPlaceholder(Lower(name))
  {
    LowerIdempotent(name);
  }

  /** A name is repetitive exactly when it splits into one word twice. */
  lemma RepetitiveIff(name: string)
    ensures IsRepetitive(name) <==> exists w :: IsWord(w) && Split(name) == [w, w]
  {
    if IsRepetitive(name) {
      SplitWords(name);
      var parts := Split(name);
      assert IsWord(parts[0]) && parts == [parts[0], parts[0]];
    }
  }

  /** Any word written twice around one space is flagged as repetitive. */
  lemma RepeatedWordIsRepetitive(w: string)
    requires IsWord(w)
    ensures IsRepetitive(w + " " + w)
  {
    assert [w, w][1..] == [w];
    assert JoinWithSpace([w, w]) == w + " " + w;
    SplitJoin([w, w]);
  }

  /** A word written twice is flagged whatever whitespace surrounds and
      separates the two copies, as long as some does separate them. */
  lemma RepeatedWordSpacedIsRepetitive(w: string, sp1: string, sp2: string, sp3: string)
    requires IsWord(w) && AllSpace(sp1) && AllSpace(sp2) && AllSpace(sp3) && |sp2| > 0
    ensures IsRepetitive(sp1 + w + sp2 + w + sp3)
  {
    var second := sp2 + w + sp3;
    assert sp1 + w + sp2 + w + sp3 == sp1 + w + second;
    SplitWordThen(sp2, w, sp3);
    SplitSpaces(sp3, "");
    assert sp3 + "" == sp3;
    assert Split(second) == [w];
    SplitWordThen(sp1, w, second);
  }

  /** The trailing-number check flags exactly the names whose last character
      is a digit, or whose last two are a digit and a line break. */
  lemma TrailingNumberIff(name: string)
    ensures HasTrailingNumber(name) <==> EndsInDigit(name)
  {
    TrailingDigitsIff(name);
  }

  /** A name with digits that do not end it is not flagged for numbers, and one
      ending in a digit before a final line break is. */
  lemma TrailingNumberExamples()
    ensures !HasTrailingNumber("R2 Smith")
    ensures HasTrailingNumber("Referee 2")
    ensures HasTrailingNumber("Referee 2\n")
  {
    TrailingDigitsIff("R2 Smith");
    TrailingDigitsIff("Referee 2");
    TrailingDigitsIff("Referee 2\n");
  }
}
