/**
 The deeper officials report: a look at the first successful record of a few
 well-known schools, schools whose crews are identical, very short
 "First Last" names, how often each position is filled, and names containing
 test/debug keywords.
 */
module DeepCheckOfficials {
  import opened Records
  import opened Text
  import Counting

  // ---------------------------------------------------------------------
  // Well-known schools

  const SchoolsToCheck: seq<string> :=
    ["rolltide.com", "floridagators.com", "georgiadogs.com", "texaslonghorns.com", "ohiostatebuckeyes.com"]

  /** What is printed for one school: the opponent and its truthy officials. */
  datatype SchoolReport = SchoolReport(school: string, opponent: string, officials: seq<Sighting>)

  /** The report for the record a school's loop stops at, or the exception the
      `gameInfo['opponent']` lookup or the `.items()` call raises. */
  function ReportFor(r: ScrapeRecord): (res: Result<SchoolReport>)
    ensures res.Ok? <==>
      r.gameInfo.GameInfoDict? && r.gameInfo.opponent.Some?
      && (r.officials.NoOfficials? || r.officials.OfficialsDict?)
    ensures res.Ok? ==> res.value.school == r.domain && res.value.opponent == r.gameInfo.opponent.value
    ensures res.Ok? && r.officials.OfficialsDict? ==>
      res.value.officials == TruthyEntries(r.domain, r.officials.entries)
    ensures res.Ok? && r.officials.NoOfficials? ==> res.value.officials == []
  {
    match r.gameInfo
    case NoGameInfo => Fail(KeyError("gameInfo"))
    case NullGameInfo => Fail(NotSubscriptable)
    case GameInfoDict(opponent, _) =>
      if opponent.None? then Fail(KeyError("opponent"))
      else
        match r.officials
        case NoOfficials => Ok(SchoolReport(r.domain, opponent.value, []))
        case OfficialsDict(entries) => Ok(SchoolReport(r.domain, opponent.value, TruthyEntries(r.domain, entries)))
        case _ => Fail(AttributeError("items"))
  }

  /** The schools of `schools` that have a successful record, in list order. */
  function Found(results: seq<ScrapeRecord>, schools: seq<string>): (r: seq<string>)
    ensures forall k :: 0 <= k < |r| ==> r[k] in schools && FirstSuccess(results, r[k]).Some?
  {
    if |schools| == 0 then []
    else (if FirstSuccess(results, schools[0]).Some? then [schools[0]] else []) + Found(results, schools[1..])
  }

  /** Some listed school's first successful record cannot be reported. */
  predicate ReportCrashes(results: seq<ScrapeRecord>, schools: seq<string>) {
    exists k :: 0 <= k < |schools| && SchoolCrashes(results, schools[k])
  }

  predicate SchoolCrashes(results: seq<ScrapeRecord>, school: string) {
    FirstSuccess(results, school).Some? && ReportFor(results[FirstSuccess(results, school).value]).Fail?
  }

  lemma ReportCrashesCons(results: seq<ScrapeRecord>, schools: seq<string>)
    requires |schools| > 0
    ensures ReportCrashes(results, schools) <==>
      SchoolCrashes(results, schools[0]) || ReportCrashes(results, schools[1..])
  {
    if ReportCrashes(results, schools[1..]) {
      var k :| 0 <= k < |schools[1..]| && SchoolCrashes(results, schools[1..][k]);
      assert schools[k + 1] == schools[1..][k];
    }
    if ReportCrashes(results, schools) {
      var k :| 0 <= k < |schools| && SchoolCrashes(results, schools[k]);
      if k > 0 {
        assert schools[1..][k - 1] == schools[k];
      }
    }
  }

  /** Lines 14-22: for each school, the first successful record with its domain
      is reported and the scan of that school stops there. */
  function CheckSchools(results: seq<ScrapeRecord>, schools: seq<string>): (res: Result<seq<SchoolReport>>)
    ensures res.Fail? <==> ReportCrashes(results, schools)
  {
    if |schools| == 0 then Ok([])
    else
      var rest := CheckSchools(results, schools[1..]);
      ReportCrashesCons(results, schools);
      match FirstSuccess(results, schools[0])
      case None => rest
      case Some(i) =>
        match ReportFor(results[i])
        case Fail(f) => Fail(f)
        case Ok(report) =>
          if rest.Fail? then rest else Ok([report] + rest.value)
  }

  /** Without a crash, the reports are those of the found schools in list
      order, each built from its school's first successful record. */
  lemma {:induction false} CheckSchoolsReports(results: seq<ScrapeRecord>, schools: seq<string>)
    requires CheckSchools(results, schools).Ok?
    ensures var reports := CheckSchools(results, schools).value;
      && |reports| == |Found(results, schools)|
      && forall k :: 0 <= k < |reports| ==>
           reports[k].school == Found(results, schools)[k]
           && ReportFor(results[FirstSuccess(results, reports[k].school).value]) == Ok(reports[k])
    decreases |schools|
  {
    if |schools| > 0 {
      CheckSchoolsReports(results, schools[1..]);
      var rest := CheckSchools(results, schools[1..]).value;
      var found := Found(results, schools[1..]);
      match FirstSuccess(results, schools[0])
      case None =>
        assert Found(results, schools) == found;
        assert CheckSchools(results, schools).value == rest;
      case Some(i) =>
        var report := ReportFor(results[i]).value;
        assert Found(results, schools) == [schools[0]] + found;
        assert CheckSchools(results, schools).value == [report] + rest;
        assert report.school == schools[0];
    }
  }

  // ---------------------------------------------------------------------
  // Identical crews

  /** `f"{position}:{name}"` */
  function CrewEntry(position: string, name: string): string {
    position + ":" + name
  }

  /** The set of `position:name` strings of a record's truthy officials. */
  function CrewOf(ss: seq<Sighting>): set<string> {
    set k | 0 <= k < |ss| :: CrewEntry(ss[k].position, ss[k].name)
  }

  /** A record that writes its crew into `officials_by_school`. */
  predicate Contributes(r: ScrapeRecord) {
    HasOfficialsDict(r) && |RecordSightings(r)| > 0
  }

  /** `officials_by_school`, as a list of (domain, crew) in key insertion order. */
  type Crews = seq<(string, set<string>)>

  /** Lines 29-40, the loop over all records. */
  function CrewsBySchool(results: seq<ScrapeRecord>): (c: Crews)
    ensures Counting.Distinct(Counting.Keys(c))
    decreases |results|
  {
    if |results| == 0 then []
    else
      var prev := CrewsBySchool(results[..|results| - 1]);
      var r := results[|results| - 1];
      if Contributes(r) then Counting.Store(prev, r.domain, CrewOf(RecordSightings(r))) else prev
  }

  /** Index of the last record that contributes a crew for domain `d`. */
  function LastContributor(results: seq<ScrapeRecord>, d: string): (r: Option<nat>)
    ensures r.Some? ==> r.value < |results| && results[r.value].domain == d && Contributes(results[r.value])
    ensures r.Some? ==> forall j :: r.value < j < |results| ==> !(results[j].domain == d && Contributes(results[j]))
    ensures r.None? ==> forall j :: 0 <= j < |results| ==> !(results[j].domain == d && Contributes(results[j]))
    decreases |results|
  {
    if |results| == 0 then None
    else
      var last := |results| - 1;
      if results[last].domain == d && Contributes(results[last]) then Some(last)
      else LastContributor(results[..last], d)
  }

  /** Each school's crew is the crew of the last record for it that named at
      least one official; records with no truthy name never insert or overwrite. */
  lemma {:induction false} CrewsBySchoolFind(results: seq<ScrapeRecord>, d: string)
    ensures Lookup(CrewsBySchool(results), d) ==
      match LastContributor(results, d)
      case None => None
      case Some(i) => Some(CrewOf(RecordSightings(results[i])))
    decreases |results|
  {
    if |results| > 0 {
      var init := results[..|results| - 1];
      CrewsBySchoolFind(init, d);
      var r := results[|results| - 1];
      if Contributes(r) {
        Counting.StoreLookup(CrewsBySchool(init), r.domain, CrewOf(RecordSightings(r)), d);
      }
      if !(r.domain == d && Contributes(r)) {
        match LastContributor(init, d)
        case None =>
        case Some(i) => assert results[i] == init[i];
      }
    }
  }

  function PairsWith(crews: Crews, i: int, j: int): (r: seq<(string, string)>)
    requires 0 <= i < |crews| && 0 <= j
    decreases |crews| - j
  {
    if j >= |crews| then []
    else (if crews[i].1 == crews[j].1 then [(crews[i].0, crews[j].0)] else []) + PairsWith(crews, i, j + 1)
  }

  function PairsFrom(crews: Crews, i: nat): (r: seq<(string, string)>)
    decreases |crews| - i
  {
    if i >= |crews| then [] else PairsWith(crews, i, i + 1) + PairsFrom(crews, i + 1)
  }

  /** The pairs (school i, school j), i < j in key order, with equal crews,
      ordered by i and then by j. */
  function IdenticalPairs(crews: Crews): seq<(string, string)> {
    PairsFrom(crews, 0)
  }

  /** The two schools at indices `a < b` have equal crews. */
  predicate SameCrewAt(crews: Crews, a: int, b: int) {
    0 <= a < b < |crews| && crews[a].1 == crews[b].1
  }

  /** `p` is the pair of the schools at indices `a < b`, whose crews are equal. */
  predicate PairAt(crews: Crews, a: int, b: int, p: (string, string)) {
    SameCrewAt(crews, a, b) && p == (crews[a].0, crews[b].0)
  }

  lemma {:induction false} PairsWithMembership(crews: Crews, i: int, j: int, p: (string, string))
    requires 0 <= i < |crews| && i < j
    ensures p in PairsWith(crews, i, j) <==> exists b :: j <= b && PairAt(crews, i, b, p)
    decreases |crews| - j
  {
    if j < |crews| {
      PairsWithMembership(crews, i, j + 1, p);
      var head := if crews[i].1 == crews[j].1 then [(crews[i].0, crews[j].0)] else [];
      assert PairsWith(crews, i, j) == head + PairsWith(crews, i, j + 1);
      if p in head {
        assert PairAt(crews, i, j, p);
      }
      if exists b :: j <= b && PairAt(crews, i, b, p) {
        var b :| j <= b && PairAt(crews, i, b, p);
        if b == j {
          assert p in head;
        } else {
          assert j + 1 <= b;
        }
      }
    }
  }

  lemma {:induction false} PairsFromMembership(crews: Crews, i: nat, p: (string, string))
    ensures p in PairsFrom(crews, i) <==> exists a, b :: i <= a && PairAt(crews, a, b, p)
    decreases |crews| - i
  {
    if i < |crews| {
      PairsWithMembership(crews, i, i + 1, p);
      PairsFromMembership(crews, i + 1, p);
      assert PairsFrom(crews, i) == PairsWith(crews, i, i + 1) + PairsFrom(crews, i + 1);
      PairsFromSound(crews, i, p);
      PairsFromComplete(crews, i, p);
    }
  }

  /** A pair found from row `i` on is a pair at some row `a >= i`. */
  lemma PairsFromSound(crews: Crews, i: nat, p: (string, string))
    requires i < |crews|
    requires p in PairsWith(crews, i, i + 1) ==> exists b :: i + 1 <= b && PairAt(crews, i, b, p)
    requires p in PairsFrom(crews, i + 1) ==> exists a, b :: i + 1 <= a && PairAt(crews, a, b, p)
    requires PairsFrom(crews, i) == PairsWith(crews, i, i + 1) + PairsFrom(crews, i + 1)
    ensures p in PairsFrom(crews, i) ==> exists a, b :: i <= a && PairAt(crews, a, b, p)
  {
    if p in PairsWith(crews, i, i + 1) {
      var b :| i + 1 <= b && PairAt(crews, i, b, p);
      assert i <= i && PairAt(crews, i, b, p);
    } else if p in PairsFrom(crews, i + 1) {
      var a, b :| i + 1 <= a && PairAt(crews, a, b, p);
      assert i <= a && PairAt(crews, a, b, p);
    }
  }

  /** A pair at some row `a >= i` is found from row `i` on. */
  lemma PairsFromComplete(crews: Crews, i: nat, p: (string, string))
    requires i < |crews|
    requires (exists b :: i + 1 <= b && PairAt(crews, i, b, p)) ==> p in PairsWith(crews, i, i + 1)
    requires (exists a, b :: i + 1 <= a && PairAt(crews, a, b, p)) ==> p in PairsFrom(crews, i + 1)
    requires PairsFrom(crews, i) == PairsWith(crews, i, i + 1) + PairsFrom(crews, i + 1)
    ensures (exists a, b :: i <= a && PairAt(crews, a, b, p)) ==> p in PairsFrom(crews, i)
  {
    if exists a, b :: i <= a && PairAt(crews, a, b, p) {
      var a, b :| i <= a && PairAt(crews, a, b, p);
      if a == i {
        assert SameCrewAt(crews, i, b);
        assert i + 1 <= b && PairAt(crews, i, b, p);
      } else {
        assert i + 1 <= a && PairAt(crews, a, b, p);
      }
    }
  }

  lemma {:induction false} PairsWithDistinct(crews: Crews, i: int, j: int)
    requires Counting.Distinct(Counting.Keys(crews))
    requires 0 <= i < |crews| && i < j
    ensures Counting.Distinct(PairsWith(crews, i, j))
    decreases |crews| - j
  {
    if j < |crews| {
      PairsWithDistinct(crews, i, j + 1);
      var head: seq<(string, string)> := if crews[i].1 == crews[j].1 then [(crews[i].0, crews[j].0)] else [];
      forall k | 0 <= k < |head|
        ensures head[k] !in PairsWith(crews, i, j + 1)
      {
        PairsWithMembership(crews, i, j + 1, head[k]);
        forall b | j + 1 <= b && SameCrewAt(crews, i, b)
          ensures !PairAt(crews, i, b, head[k])
        {
          assert Counting.Keys(crews)[j] != Counting.Keys(crews)[b];
        }
      }
      Counting.DistinctAppend(head, PairsWith(crews, i, j + 1));
    }
  }

  lemma {:induction false} PairsFromDistinct(crews: Crews, i: nat)
    requires Counting.Distinct(Counting.Keys(crews))
    ensures Counting.Distinct(PairsFrom(crews, i))
    decreases |crews| - i
  {
    if i < |crews| {
      PairsWithDistinct(crews, i, i + 1);
      PairsFromDistinct(crews, i + 1);
      var front := PairsWith(crews, i, i + 1);
      forall k | 0 <= k < |front|
        ensures front[k] !in PairsFrom(crews, i + 1)
      {
        PairsWithMembership(crews, i, i + 1, front[k]);
        PairsFromMembership(crews, i + 1, front[k]);
        forall a, b | i + 1 <= a && SameCrewAt(crews, a, b)
          ensures !PairAt(crews, a, b, front[k])
        {
          assert Counting.Keys(crews)[i] != Counting.Keys(crews)[a];
        }
      }
      Counting.DistinctAppend(PairsWith(crews, i, i + 1), PairsFrom(crews, i + 1));
    }
  }

  /** `identical_crews`: exactly the pairs of schools, earlier key first, whose
      crews are equal; over distinct keys no school is paired with itself, no
      pair is listed twice and no pair appears in both orders. */
  lemma IdenticalPairsExact(crews: Crews)
    requires Counting.Distinct(Counting.Keys(crews))
    ensures forall p :: p in IdenticalPairs(crews) <==>
      exists a, b :: PairAt(crews, a, b, p)
    ensures forall p :: p in IdenticalPairs(crews) ==> p.0 != p.1 && (p.1, p.0) !in IdenticalPairs(crews)
    ensures Counting.Distinct(IdenticalPairs(crews))
  {
    forall p
      ensures p in IdenticalPairs(crews) <==>
        exists a, b :: PairAt(crews, a, b, p)
    {
      PairsFromMembership(crews, 0, p);
    }
    forall p | p in IdenticalPairs(crews)
      ensures p.0 != p.1 && (p.1, p.0) !in IdenticalPairs(crews)
    {
      var a, b :| PairAt(crews, a, b, p);
      assert Counting.Keys(crews)[a] != Counting.Keys(crews)[b];
      forall a', b' | SameCrewAt(crews, a', b')
        ensures !PairAt(crews, a', b', (p.1, p.0))
      {
        if crews[a'].0 == crews[b].0 {
          assert Counting.Keys(crews)[a'] == Counting.Keys(crews)[b];
          assert a' == b;
          assert Counting.Keys(crews)[b'] != Counting.Keys(crews)[a];
        }
      }
    }
    PairsFromDistinct(crews, 0);
  }

  /** Lines 43-50, the nested loops over the schools in key order. */
  method IdenticalCrews(crews: Crews) returns (pairs: seq<(string, string)>)
    ensures pairs == IdenticalPairs(crews)
    ensures forall p :: p in pairs ==>
      exists a, b :: PairAt(crews, a, b, p)
  {
    pairs := [];
    var i := 0;
    while i < |crews|
      invariant 0 <= i <= |crews|
      invariant pairs + PairsFrom(crews, i) == IdenticalPairs(crews)
    {
      var j := i + 1;
      OuterStep(crews, i, pairs);
      while j < |crews|
        invariant i + 1 <= j <= |crews|
        invariant pairs + PairsWith(crews, i, j) + PairsFrom(crews, i + 1) == IdenticalPairs(crews)
      {
        var here := if crews[i].1 == crews[j].1 then [(crews[i].0, crews[j].0)] else [];
        InnerStep(crews, i, j, pairs);
        pairs := pairs + here;
        j := j + 1;
      }
      i := i + 1;
    }
    IdenticalPairsSound(crews);
  }

  /** One turn of the outer loop: school i's pairs come before the later schools'. */
  lemma OuterStep(crews: Crews, i: nat, pairs: seq<(string, string)>)
    requires i < |crews|
    ensures pairs + PairsFrom(crews, i) == pairs + PairsWith(crews, i, i + 1) + PairsFrom(crews, i + 1)
  {
    Counting.AppendAssoc(pairs, PairsWith(crews, i, i + 1), PairsFrom(crews, i + 1));
  }

  /** One turn of the inner loop: the pair (i, j), if any, comes before (i, j + 1) onwards. */
  lemma InnerStep(crews: Crews, i: nat, j: nat, pairs: seq<(string, string)>)
    requires i < j < |crews|
    ensures var here := if crews[i].1 == crews[j].1 then [(crews[i].0, crews[j].0)] else [];
      pairs + PairsWith(crews, i, j) + PairsFrom(crews, i + 1)
      == (pairs + here) + PairsWith(crews, i, j + 1) + PairsFrom(crews, i + 1)
  {
    var here := if crews[i].1 == crews[j].1 then [(crews[i].0, crews[j].0)] else [];
    Counting.AppendAssoc(pairs, here, PairsWith(crews, i, j + 1));
  }

  /** Every pair the nested loops report is a pair of schools with equal crews. */
  lemma IdenticalPairsSound(crews: Crews)
    ensures forall p :: p in IdenticalPairs(crews) ==> exists a, b :: PairAt(crews, a, b, p)
  {
    forall p | p in IdenticalPairs(crews)
      ensures exists a, b :: PairAt(crews, a, b, p)
    {
      PairsFromMembership(crews, 0, p);
    }
  }

  // ---------------------------------------------------------------------
  // Generic names, position counts, keyword scan

  /** A successful record whose truthy `officials` is not a dict: `.items()`
      raises on it in the loops of lines 67-105. */
  predicate BreaksItems(r: ScrapeRecord) {
    r.success && r.officials.OtherOfficials? && r.officials.truthy
  }

  /** The loop `for position, name in result['officials'].items()` over every
      record with `success` and truthy officials, without an `isinstance` test. */
  function ItemsScan(results: seq<ScrapeRecord>): (res: Result<seq<Sighting>>)
    ensures res.Fail? <==> exists i :: 0 <= i < |results| && BreaksItems(results[i])
    ensures res.Ok? ==> res.value == Sightings(results)
  {
    if |results| == 0 then Ok([])
    else
      var r := results[0];
      var rest := ItemsScan(results[1..]);
      assert (exists i :: 0 <= i < |results| && BreaksItems(results[i])) <==>
        BreaksItems(r) || exists i :: 0 <= i < |results[1..]| && BreaksItems(results[1..][i])
      by {
        if exists i :: 0 <= i < |results| && BreaksItems(results[i]) {
          var i :| 0 <= i < |results| && BreaksItems(results[i]);
          if i > 0 {
            assert results[1..][i - 1] == results[i];
          }
        }
        if exists i :: 0 <= i < |results[1..]| && BreaksItems(results[1..][i]) {
          var i :| 0 <= i < |results[1..]| && BreaksItems(results[1..][i]);
          assert results[i + 1] == results[1..][i];
        }
      }
      if r.success && OfficialsTruthy(r.officials) then
        match r.officials
        case OfficialsDict(entries) =>
          if rest.Fail? then rest else Ok(TruthyEntries(r.domain, entries) + rest.value)
        case _ => Fail(AttributeError("items"))
      else rest
  }

  /** Lines 74-78: the simple-name pattern, shorter than 12 characters, one
      space, first word shorter than 5 and second shorter than 6. */
  predicate IsVeryShortSimpleName(name: string) {
    && MatchesSimpleName(name)
    && |name| < 12
    && CountChar(name, ' ') == 1
    && var parts := Split(name);
       |parts| >= 2 && |parts[0]| < 5 && |parts[1]| < 6
  }

  /** The length and space-count guards are implied by the pattern and the
      word-length guards: a name is flagged exactly when it is two capitalised
      words, of at most 4 and at most 5 letters, around one space (optionally
      followed by a final line break). */
  lemma VeryShortSimpleNameIff(name: string)
    ensures IsVeryShortSimpleName(name) <==>
      exists k :: SimpleNameAt(name, k) && k < 5 && |DropFinalNewline(name[k + 1..])| < 6
  {
    if IsVeryShortSimpleName(name) {
      var k :| 0 < k < |name| && SimpleNameAt(name, k);
      VeryShortAt(name, k);
    }
    if exists k :: SimpleNameAt(name, k) && k < 5 && |DropFinalNewline(name[k + 1..])| < 6 {
      var k :| SimpleNameAt(name, k) && k < 5 && |DropFinalNewline(name[k + 1..])| < 6;
      VeryShortAt(name, k);
    }
  }

  /** Once the space is known, the length tests read off the two words. */
  lemma VeryShortAt(name: string, k: int)
    requires SimpleNameAt(name, k)
    ensures IsVeryShortSimpleName(name) <==> k < 5 && |DropFinalNewline(name[k + 1..])| < 6
  {
    SimpleNameShape(name, k);
    assert MatchesSimpleName(name);
  }

  function FilterGeneric(ss: seq<Sighting>): (r: seq<Sighting>)
    ensures forall s :: s in r <==> s in ss && IsVeryShortSimpleName(s.name)
  {
    if |ss| == 0 then []
    else (if IsVeryShortSimpleName(ss[0].name) then [ss[0]] else []) + FilterGeneric(ss[1..])
  }

  function Positions(ss: seq<Sighting>): (r: seq<string>)
    ensures |r| == |ss|
    ensures forall k :: 0 <= k < |ss| ==> r[k] == ss[k].position
  {
    seq(|ss|, k requires 0 <= k < |ss| => ss[k].position)
  }

  const SuspiciousKeywords: seq<string> :=
    ["test", "example", "sample", "demo", "placeholder", "temp", "dummy"]

  /** One copy of `s` for every keyword of `keywords` in its lowered name. */
  function KeywordHits(s: Sighting, keywords: seq<string>): (r: seq<Sighting>)
    ensures forall k :: 0 <= k < |r| ==> r[k] == s
  {
    if |keywords| == 0 then []
    else (if Contains(Lower(s.name), keywords[0]) then [s] else []) + KeywordHits(s, keywords[1..])
  }

  function KeywordHitsOf(ss: seq<Sighting>, keywords: seq<string>): seq<Sighting> {
    if |ss| == 0 then [] else KeywordHits(ss[0], keywords) + KeywordHitsOf(ss[1..], keywords)
  }

  datatype DeepScanReport = DeepScanReport(
    allNames: seq<Sighting>,
    genericPatterns: seq<Sighting>,
    positionCounts: Counting.Tally<string>,
    foundSuspicious: seq<Sighting>)

  /** Lines 64-105; every loop stops at the same record when `.items()` raises,
      and the first one to reach it is the `all_names` loop. */
  function DeepScan(results: seq<ScrapeRecord>): (res: Result<DeepScanReport>)
    ensures res.Fail? <==> exists i :: 0 <= i < |results| && BreaksItems(results[i])
    ensures res.Ok? ==> res.value.allNames == Sightings(results)
  {
    match ItemsScan(results)
    case Fail(f) => Fail(f)
    case Ok(ss) =>
      Ok(DeepScanReport(ss, FilterGeneric(ss), Counting.Count(Positions(ss)), KeywordHitsOf(ss, SuspiciousKeywords)))
  }

  /** The position counts add up to the number of truthy names of the
      qualifying records, and each is the number of those names filed under
      that position. */
  lemma PositionCountsExact(results: seq<ScrapeRecord>, position: string)
    requires DeepScan(results).Ok?
    ensures Counting.Total(DeepScan(results).value.positionCounts) == |Sightings(results)|
    ensures Counting.CountOf(DeepScan(results).value.positionCounts, position) ==
      multiset(Positions(Sightings(results)))[position]
  {
    Counting.CountTotal(Positions(Sightings(results)));
    Counting.CountMatchesMultiset(Positions(Sightings(results)), position);
  }

  /** A generic-pattern entry is exactly a collected name of the very short
      simple shape. */
  lemma GenericPatternsExact(results: seq<ScrapeRecord>, s: Sighting)
    requires DeepScan(results).Ok?
    ensures s in DeepScan(results).value.genericPatterns <==>
      s in Sightings(results) && exists k :: SimpleNameAt(s.name, k) && k < 5 && |DropFinalNewline(s.name[k + 1..])| < 6
  {
    VeryShortSimpleNameIff(s.name);
  }

  /** The keywords of `keywords` that occur in the lowered name. */
  function MatchedKeywords(name: string, keywords: seq<string>): set<string> {
    set kw | kw in keywords && Contains(Lower(name), kw)
  }

  /** A name is reported once per keyword it contains, case-insensitively. */
  lemma {:induction false} KeywordHitsCount(s: Sighting, keywords: seq<string>)
    requires Counting.Distinct(keywords)
    ensures |KeywordHits(s, keywords)| == |MatchedKeywords(s.name, keywords)|
    decreases |keywords|
  {
    if |keywords| > 0 {
      var rest := keywords[1..];
      assert Counting.Distinct(rest);
      KeywordHitsCount(s, rest);
      var all := MatchedKeywords(s.name, keywords);
      var tail := MatchedKeywords(s.name, rest);
      assert keywords[0] !in tail;
      if Contains(Lower(s.name), keywords[0]) {
        assert all == tail + {keywords[0]};
      } else {
        assert all == tail;
      }
    }
  }

  lemma {:induction false} KeywordHitsOfAppend(a: seq<Sighting>, b: seq<Sighting>, keywords: seq<string>)
    ensures KeywordHitsOf(a + b, keywords) == KeywordHitsOf(a, keywords) + KeywordHitsOf(b, keywords)
    decreases |a|
  {
    if |a| == 0 {
      assert a + b == b;
    } else {
      assert (a + b)[1..] == a[1..] + b;
      KeywordHitsOfAppend(a[1..], b, keywords);
    }
  }

  /** The keyword scan reports one name as many times as there are distinct
      suspicious keywords in it. */
  lemma KeywordScanOfOne(s: Sighting)
    ensures KeywordHitsOf([s], SuspiciousKeywords) == KeywordHits(s, SuspiciousKeywords)
    ensures |KeywordHitsOf([s], SuspiciousKeywords)| == |MatchedKeywords(s.name, SuspiciousKeywords)|
  {
    assert KeywordHitsOf([s], SuspiciousKeywords) == KeywordHits(s, SuspiciousKeywords) + KeywordHitsOf([], SuspiciousKeywords);
    KeywordHitsCount(s, SuspiciousKeywords);
  }

  /** No keyword is listed twice. */
  lemma KeywordsDistinct()
    ensures Counting.Distinct(SuspiciousKeywords)
  {
  }

  /** Over any list of sightings, the keyword scan reports each sighting as
      many times as it occurs times the number of hits it gets on its own. */
  lemma {:induction false} KeywordHitsOfCount(ss: seq<Sighting>, keywords: seq<string>, s: Sighting)
    ensures multiset(KeywordHitsOf(ss, keywords))[s] == multiset(ss)[s] * |KeywordHits(s, keywords)|
    decreases |ss|
  {
    if |ss| > 0 {
      var rest := ss[1..];
      KeywordHitsOfCount(rest, keywords, s);
      assert KeywordHitsOf(ss, keywords) == KeywordHits(ss[0], keywords) + KeywordHitsOf(rest, keywords);
      CountStep(KeywordHits(ss[0], keywords), KeywordHitsOf(rest, keywords), ss, s,
        |KeywordHits(s, keywords)|, multiset(rest)[s]);
    }
  }

  /** One step of `KeywordHitsOfCount`: a block of copies of `x` in front of
      the hits of the rest. */
  lemma CountStep<T>(hits: seq<T>, later: seq<T>, all: seq<T>, y: T, m: nat, n: nat)
    requires |all| > 0
    requires forall k :: 0 <= k < |hits| ==> hits[k] == all[0]
    requires all[0] == y ==> |hits| == m
    requires multiset(all[1..])[y] == n
    requires multiset(later)[y] == n * m
    ensures multiset(hits + later)[y] == multiset(all)[y] * m
  {
    Counting.CopiesCount(hits, all[0], y);
    Counting.CountCons(all, y);
    assert multiset(hits + later)[y] == multiset(hits)[y] + multiset(later)[y];
    Counting.MulStep(n, m, all[0] == y);
  }

  /** `found_suspicious` holds each collected (domain, position, name) triple
      once per time it was collected and per distinct keyword in its name. */
  lemma KeywordScanCount(results: seq<ScrapeRecord>, s: Sighting)
    requires DeepScan(results).Ok?
    ensures multiset(DeepScan(results).value.foundSuspicious)[s] ==
      multiset(Sightings(results))[s] * |MatchedKeywords(s.name, SuspiciousKeywords)|
  {
    var ss := Sightings(results);
    var keywords := SuspiciousKeywords;
    assert DeepScan(results).value.foundSuspicious == KeywordHitsOf(ss, keywords);
    KeywordHitsOfCount(ss, keywords, s);
    KeywordsDistinct();
    KeywordHitsCount(s, keywords);
    var n := multiset(ss)[s];
    var c := |KeywordHits(s, keywords)|;
    assert c == |MatchedKeywords(s.name, keywords)|;
    assert multiset(DeepScan(results).value.foundSuspicious)[s] == n * c;
  }
}
