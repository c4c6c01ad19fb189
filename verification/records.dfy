/**
 The scrape-result records the data-quality scripts read, as the scripts see
 them after JSON decoding, together with the Python truthiness rules and the
 record scans several scripts share.
 */
module Records {

  datatype Option<+T> = None | Some(value: T)

  /** The exceptions the scripts can raise on records of unexpected shape. */
  datatype Fault =
    | KeyError(key: string)            // `d[k]` on a dict without `k`
    | NotSubscriptable                 // `None[k]`
    | AttributeError(attribute: string) // `.items()`, `.values()`, `.get()` on a non-dict

  /** The outcome of a script stage: a value, or the exception that aborts the script. */
  datatype Result<+T> = Ok(value: T) | Fail(fault: Fault)

  /** One key/value pair of an `officials` dict: the position title and the
      name, or JSON null. Entries are kept in the dict's insertion order. */
  type Entry = (string, Option<string>)

  /** The `officials` field of a record. */
  datatype OfficialsField =
    | NoOfficials                        // key absent
    | NullOfficials                      // JSON null
    | OfficialsDict(entries: seq<Entry>) // a JSON object
    | OtherOfficials(truthy: bool)       // a list, string, number or boolean

  /** The `gameInfo` field of a record; `opponent` is `None` when that key is absent. */
  datatype GameInfoField =
    | NoGameInfo
    | NullGameInfo
    | GameInfoDict(opponent: Option<string>, otherKeys: bool)

  /** One element of the `results` array of a batch-test output file. */
  datatype ScrapeRecord = ScrapeRecord(
    domain: string,
    success: bool,
    school: Option<string>,
    gameInfo: GameInfoField,
    officials: OfficialsField)

  /** Python truthiness of an officials value: present and non-empty. */
  predicate IsTruthy(v: Option<string>) {
    v.Some? && |v.value| > 0
  }

  /** Python truthiness of the `gameInfo` value: a non-empty dict. */
  predicate GameInfoTruthy(g: GameInfoField) {
    g.GameInfoDict? && (g.opponent.Some? || g.otherKeys)
  }

  /** Python truthiness of `result.get('officials')`. */
  predicate OfficialsTruthy(o: OfficialsField) {
    match o
    case OfficialsDict(entries) => |entries| > 0
    case OtherOfficials(truthy) => truthy
    case _ => false
  }

  /** `result['success'] and result.get('officials')` and `isinstance(officials, dict)`. */
  predicate HasOfficialsDict(r: ScrapeRecord) {
    r.success && r.officials.OfficialsDict? && OfficialsTruthy(r.officials)
  }

  /** One truthy name found in a record: the record's domain, the position key
      and the name. */
  datatype Sighting = Sighting(school: string, position: string, name: string)

  /** Entry `e` of a dict of record `domain` maps a position to the truthy name of `s`. */
  predicate EntryYields(e: Entry, domain: string, s: Sighting) {
    e == (s.position, Some(s.name)) && |s.name| > 0 && s.school == domain
  }

  /** The truthy names of one officials dict, in the dict's order. */
  function TruthyEntries(domain: string, entries: seq<Entry>): (r: seq<Sighting>)
    ensures |r| <= |entries|
    ensures forall s :: s in r <==> exists j :: 0 <= j < |entries| && EntryYields(entries[j], domain, s)
  {
    if |entries| == 0 then []
    else
      var (position, value) := entries[0];
      var rest := TruthyEntries(domain, entries[1..]);
      assert forall s :: s in rest ==> exists j :: 1 <= j < |entries| && EntryYields(entries[j], domain, s) by {
        forall s | s in rest
          ensures exists j :: 1 <= j < |entries| && EntryYields(entries[j], domain, s)
        {
          var j :| 0 <= j < |entries[1..]| && EntryYields(entries[1..][j], domain, s);
          assert entries[j + 1] == entries[1..][j];
        }
      }
      if IsTruthy(value) then [Sighting(domain, position, value.value)] + rest else rest
  }

  /** A single entry yields its name exactly when the name is truthy. */
  lemma TruthyEntriesOne(domain: string, e: Entry)
    ensures TruthyEntries(domain, [e]) == if IsTruthy(e.1) then [Sighting(domain, e.0, e.1.value)] else []
  {
    assert [e][1..] == [];
  }

  /** The truthy names of a dict split in two are those of its front part
      followed by those of its back part: with `TruthyEntriesOne`, the
      sightings keep the dict's order. */
  lemma {:induction false} TruthyEntriesAppend(domain: string, a: seq<Entry>, b: seq<Entry>)
    ensures TruthyEntries(domain, a + b) == TruthyEntries(domain, a) + TruthyEntries(domain, b)
    decreases |a|
  {
    if |a| == 0 {
      assert a + b == b;
    } else {
      var ab := a + b;
      assert ab[0] == a[0];
      assert ab[1..] == a[1..] + b;
      TruthyEntriesAppend(domain, a[1..], b);
    }
  }

  /** The truthy names a record contributes to the officials scans. */
  function RecordSightings(r: ScrapeRecord): seq<Sighting> {
    if HasOfficialsDict(r) then TruthyEntries(r.domain, r.officials.entries) else []
  }

  /** Every truthy name of every successful record with an officials dict, in
      record order and, within a record, in position order. */
  function Sightings(results: seq<ScrapeRecord>): (r: seq<Sighting>)
    ensures forall s :: s in r ==> |s.name| > 0
  {
    if |results| == 0 then [] else RecordSightings(results[0]) + Sightings(results[1..])
  }

  /** The scan keeps record order: scanning a concatenation concatenates the scans. */
  lemma {:induction false} SightingsAppend(a: seq<ScrapeRecord>, b: seq<ScrapeRecord>)
    ensures Sightings(a + b) == Sightings(a) + Sightings(b)
    decreases |a|
  {
    if |a| == 0 {
      assert a + b == b;
    } else {
      assert (a + b)[1..] == a[1..] + b;
      SightingsAppend(a[1..], b);
    }
  }

  /** A name is collected exactly when some successful record with an officials
      dict maps some position to it and it is non-empty. */
  lemma {:induction false} SightingsMembership(results: seq<ScrapeRecord>, s: Sighting)
    ensures s in Sightings(results) <==> exists i :: 0 <= i < |results| && s in RecordSightings(results[i])
    decreases |results|
  {
    if |results| > 0 {
      SightingsMembership(results[1..], s);
      if s in Sightings(results[1..]) {
        var i :| 0 <= i < |results[1..]| && s in RecordSightings(results[1..][i]);
        assert results[i + 1] == results[1..][i];
      }
      if exists i :: 0 <= i < |results| && s in RecordSightings(results[i]) {
        var i :| 0 <= i < |results| && s in RecordSightings(results[i]);
        if i > 0 {
          assert results[1..][i - 1] == results[i];
        }
      }
    }
  }

  /** Index of the first successful record for `school`, the record the
      per-school reports use before they `break`. */
  function FirstSuccess(results: seq<ScrapeRecord>, school: string): (r: Option<nat>)
    ensures r.Some? ==> r.value < |results| && results[r.value].domain == school && results[r.value].success
    ensures r.Some? ==> forall j :: 0 <= j < r.value ==> !(results[j].domain == school && results[j].success)
    ensures r.None? ==> forall j :: 0 <= j < |results| ==> !(results[j].domain == school && results[j].success)
  {
    if |results| == 0 then None
    else if results[0].domain == school && results[0].success then Some(0)
    else
      match FirstSuccess(results[1..], school)
      case None => None
      case Some(i) => Some(i + 1)
  }

  // ---------------------------------------------------------------------
  // Association lists: a Python dict as its (key, value) pairs in insertion
  // order

  /** `d.get(k)`: the value of the pair with key `k`, or `None` when no pair
      has that key. */
  function Lookup<K(==), V>(c: seq<(K, V)>, k: K): (r: Option<V>)
    ensures r.None? <==> forall j :: 0 <= j < |c| ==> c[j].0 != k
    ensures r.Some? ==> exists j :: 0 <= j < |c| && c[j] == (k, r.value)
  {
    if |c| == 0 then None
    else if c[0].0 == k then Some(c[0].1)
    else Lookup(c[1..], k)
  }
}
