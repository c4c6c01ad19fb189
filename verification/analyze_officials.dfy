/**
 The list of schools whose scrape succeeded but extracted no officials: every
 successful record whose officials dict (an absent one counts as empty) holds
 no non-null value.
 */
module AnalyzeOfficials {
  import opened Records

  /** One element of `no_officials`. */
  datatype NoOfficialsEntry = NoOfficialsEntry(
    domain: string,
    school: string,
    opponent: string,
    officialsData: seq<Entry>)

  /** `result.get('officials', {})` when it passes `isinstance(officials, dict)`:
      an absent key reads as the empty dict, while null and non-dict values
      are skipped. */
  function OfficialsAsDict(o: OfficialsField): (r: Option<seq<Entry>>)
    ensures r.Some? <==> o.NoOfficials? || o.OfficialsDict?
    ensures o.NoOfficials? ==> r == Some([])
    ensures o.OfficialsDict? ==> r == Some(o.entries)
  {
    match o
    case NoOfficials => Some([])
    case OfficialsDict(entries) => Some(entries)
    case _ => None
  }

  /** `sum(1 for v in officials.values() if v is not None)`: an empty string
      counts as present. */
  function NonNullCount(entries: seq<Entry>): (n: nat)
    ensures n <= |entries|
    ensures n == 0 <==> forall j :: 0 <= j < |entries| ==> entries[j].1.None?
  {
    if |entries| == 0 then 0
    else (if entries[0].1.Some? then 1 else 0) + NonNullCount(entries[1..])
  }

  /** The record is appended to `no_officials`. */
  predicate Listed(r: ScrapeRecord) {
    && r.success
    && OfficialsAsDict(r.officials).Some?
    && NonNullCount(OfficialsAsDict(r.officials).value) == 0
  }

  /** The entry built for a listed record; `result.get('gameInfo', {}).get(...)`
      raises when `gameInfo` is null. */
  function EntryFor(r: ScrapeRecord): (res: Result<NoOfficialsEntry>)
    requires Listed(r)
    ensures res.Fail? <==> r.gameInfo.NullGameInfo?
    ensures res.Ok? ==> res.value.domain == r.domain
    ensures res.Ok? ==> res.value.school == (if r.school.Some? then r.school.value else r.domain)
    ensures res.Ok? ==>
      res.value.opponent == (if r.gameInfo.GameInfoDict? && r.gameInfo.opponent.Some? then r.gameInfo.opponent.value else "Unknown")
    ensures res.Ok? ==> forall j :: 0 <= j < |res.value.officialsData| ==> res.value.officialsData[j].1.None?
  {
    var school := if r.school.Some? then r.school.value else r.domain;
    var data := OfficialsAsDict(r.officials).value;
    match r.gameInfo
    case NullGameInfo => Fail(AttributeError("get"))
    case NoGameInfo => Ok(NoOfficialsEntry(r.domain, school, "Unknown", data))
    case GameInfoDict(opponent, _) =>
      Ok(NoOfficialsEntry(r.domain, school, if opponent.Some? then opponent.value else "Unknown", data))
  }

  /** Positions, from `start` on, of the records that are listed, in increasing order. */
  function ListedFrom(results: seq<ScrapeRecord>, start: nat): (r: seq<nat>)
    ensures forall k :: 0 <= k < |r| ==> start <= r[k] < |results| && Listed(results[r[k]])
    ensures forall k, l :: 0 <= k < l < |r| ==> r[k] < r[l]
    ensures forall i :: start <= i < |results| && Listed(results[i]) ==> i in r
    decreases |results| - start
  {
    if start >= |results| then []
    else (if Listed(results[start]) then [start] else []) + ListedFrom(results, start + 1)
  }

  /** Some listed record from `start` on has a null `gameInfo`. */
  predicate CrashesFrom(results: seq<ScrapeRecord>, start: nat) {
    exists i :: start <= i < |results| && Listed(results[i]) && results[i].gameInfo.NullGameInfo?
  }

  /** The loop of lines 9-22 from record `start` on. */
  function NoOfficialsFrom(results: seq<ScrapeRecord>, start: nat): (res: Result<seq<NoOfficialsEntry>>)
    ensures res.Fail? <==> CrashesFrom(results, start)
    decreases |results| - start
  {
    if start >= |results| then Ok([])
    else
      var rest := NoOfficialsFrom(results, start + 1);
      assert CrashesFrom(results, start) <==>
        (Listed(results[start]) && results[start].gameInfo.NullGameInfo?) || CrashesFrom(results, start + 1);
      if Listed(results[start]) then
        match EntryFor(results[start])
        case Fail(f) => Fail(f)
        case Ok(e) => if rest.Fail? then rest else Ok([e] + rest.value)
      else rest
  }

  /** Without a crash, the k-th entry is the one built from the k-th listed record. */
  lemma {:induction false} NoOfficialsFromEntries(results: seq<ScrapeRecord>, start: nat)
    requires NoOfficialsFrom(results, start).Ok?
    ensures |NoOfficialsFrom(results, start).value| == |ListedFrom(results, start)|
    ensures forall k :: 0 <= k < |ListedFrom(results, start)| ==>
      EntryFor(results[ListedFrom(results, start)[k]]) == Ok(NoOfficialsFrom(results, start).value[k])
    decreases |results| - start
  {
    if start < |results| {
      NoOfficialsFromEntries(results, start + 1);
      var rest := NoOfficialsFrom(results, start + 1).value;
      var idx := ListedFrom(results, start + 1);
      if Listed(results[start]) {
        var e := EntryFor(results[start]).value;
        assert NoOfficialsFrom(results, start).value == [e] + rest;
        assert ListedFrom(results, start) == [start] + idx;
      } else {
        assert ListedFrom(results, start) == idx;
      }
    }
  }

  /** `no_officials`. */
  function NoOfficialsList(results: seq<ScrapeRecord>): Result<seq<NoOfficialsEntry>> {
    NoOfficialsFrom(results, 0)
  }

  /** Output order follows input order and every entry comes from its own
      record: the k-th entry is built from the k-th listed record, and listed
      positions strictly increase. */
  lemma NoOfficialsExact(results: seq<ScrapeRecord>)
    ensures NoOfficialsList(results).Fail? <==>
      exists i :: 0 <= i < |results| && Listed(results[i]) && results[i].gameInfo.NullGameInfo?
    ensures NoOfficialsList(results).Ok? ==>
      var idx := ListedFrom(results, 0);
      && |NoOfficialsList(results).value| == |idx|
      && (forall k, l :: 0 <= k < l < |idx| ==> idx[k] < idx[l])
      && (forall k :: 0 <= k < |idx| ==> EntryFor(results[idx[k]]) == Ok(NoOfficialsList(results).value[k]))
      && (forall i :: 0 <= i < |results| && Listed(results[i]) ==> i in idx)
  {
    if NoOfficialsList(results).Ok? {
      NoOfficialsFromEntries(results, 0);
    }
  }

  /** A successful record is listed exactly when its officials key is absent
      or holds a dict whose every value is null. */
  lemma ListedIff(r: ScrapeRecord)
    ensures Listed(r) <==>
      && r.success
      && (|| r.officials.NoOfficials?
          || (r.officials.OfficialsDict? && forall j :: 0 <= j < |r.officials.entries| ==> r.officials.entries[j].1.None?))
  {
  }

  /** An empty-string name is not null, so any dict holding one keeps its
      record off the list, while an empty dict or an absent key puts it on
      and a null one does not. */
  lemma EmptyStringCountsAsPresent(r: ScrapeRecord)
    requires r.success
    ensures r.officials.OfficialsDict? && (exists j :: 0 <= j < |r.officials.entries| && r.officials.entries[j].1 == Some(""))
      ==> !Listed(r)
    ensures r.officials == OfficialsDict([]) ==> Listed(r)
    ensures r.officials == NoOfficials ==> Listed(r)
    ensures r.officials == NullOfficials ==> !Listed(r)
  {
    if r.officials.OfficialsDict? && exists j :: 0 <= j < |r.officials.entries| && r.officials.entries[j].1 == Some("") {
      var j :| 0 <= j < |r.officials.entries| && r.officials.entries[j].1 == Some("");
      assert !r.officials.entries[j].1.None?;
    }
  }
}
