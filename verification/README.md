# Officials data-quality scripts, modelled in Dafny

The scraper writes a batch-test file: a `results` array with one record per
school website. Each record holds the `domain`, a `success` flag and
optionally the `school`. It also holds a `gameInfo` object with the
`opponent`, and an `officials` object that maps position titles (`referee`,
`umpire`, …) to names or null. Four Python scripts read that file and report
on the quality of the extracted officials. This project models them as pure
functions over the decoded records. It then proves what their reports contain.

- `check_officials.py`: collects every truthy name. Flags names that are
  placeholders, repetitive ("Test Test") or end in a number. Counts name
  frequencies and duplicates. Lists single-word names.
- `deep_check_officials.py`: reports the first successful record of five
  well-known schools. Finds schools whose crews (sets of `position:name`) are
  identical. Flags very short "First Last" names, counts positions and scans
  for test/debug keywords.
- `analyze_officials.py`: lists successful records whose officials dict is
  absent, empty or holds only nulls.
- `verify_matching_games.py`: builds a domain → opponent lookup. Runs a chain of
  eighteen substring tests in eight branches over eight hard-coded school
  pairs, to confirm that each pair plays each other. Prints the referee and umpire of four major schools.

Modules, one per file:

- `Text` (`text.dfy`): the Python string operations the scripts use.
  - `str.split()` on Python's exact whitespace set.
  - ASCII `lower()`.
  - The `in` substring test.
  - The two regular expressions `\d+$` and `^[A-Z][a-z]+ [A-Z][a-z]+$`. Here
    `$` also matches just before a final line break, as in Python's `re`.
- `Records` (`records.dfy`): the record shape, covering absent, null, dict and
  non-dict fields. Also Python truthiness, the shared "collect every truthy
  name" scan, first-successful-record lookup, and `d.get(k)` on any dict
  held as its (key, value) pairs in insertion order (`Records.Lookup`).
- `Counting` (`counting.dfy`): dict assignment `d[k] = v` on such pair lists
  (`Counting.Store`), `collections.Counter` built on it in first-occurrence
  order and related to the multiset of its input, and a few sequence helpers.
- `CheckOfficials`, `DeepCheckOfficials`, `AnalyzeOfficials`,
  `VerifyMatchingGames`: one per script.

An exception a script would raise on a record of unexpected shape is modelled
as `Result.Fail`. The failure carries the exception the script would raise:
`KeyError`, `AttributeError`, or the `TypeError` of subscripting `None`
(`Fault.NotSubscriptable`). Examples:

- a truthy non-dict `officials` reaching `.items()` or `.values()`
  (`AttributeError`);
- a null `gameInfo` reaching `.get()` (`AttributeError`) or `['opponent']`
  (`TypeError`);
- a missing `opponent` reaching `['opponent']` (`KeyError`).

The confirmation chain of `verify_matching_games.py` is modelled twice, as a
`Chain` parameter. `AsWritten` is the chain the script runs. `Corrected`
turns its last branch the way of the other seven (see "Findings"). The pair
reports take the chain as a parameter, so every statement about them says
which chain it holds for.

Facts the proofs establish about the scripts:

- A placeholder name is never repetitive and never ends in a digit. So one
  name produces at most two suspicious-name entries, not three.
- In the generic-name check, the `len(name) < 12` and `name.count(' ') == 1`
  guards can never fail once the pattern and the word-length guards hold
  (`VeryShortSimpleNameIff`).
- The pair report never reads the officials it announces as shared.

## Model

| member | source | states |
|---|---|---|
| Text.Split | check_officials.py:34 | `str.split()` with no argument: cuts at runs of Python whitespace and drops empty tokens; `SplitSpaces` and `SplitWordThen`, with `Split("") == []`, fix its result on every input |
| Text.SplitSpaces | check_officials.py:34 | a run of whitespace in front of a string adds no token, so leading whitespace is dropped and a run of it separates like one space |
| Text.SplitWordThen | check_officials.py:34 | after any whitespace, a word ending at whitespace or at the end of the string is the next token, followed by the tokens of the rest |
| Text.SplitWords | check_officials.py:34 | every token of `str.split()` is a non-empty run of non-whitespace characters |
| Text.SplitKeepsNonSpace | check_officials.py:34 | concatenating the tokens gives the name with all whitespace removed, so no character is lost or invented |
| Text.SplitJoin | check_officials.py:34 | round trip: splitting words joined by single spaces gives the words back |
| Text.SplitLower | check_officials.py:22-35 | lower-casing the name before splitting gives the lower-cased tokens of the original split |
| Text.Lower | check_officials.py:22 | lower-casing keeps the length and maps each character on its own, `A`-`Z` to `a`-`z` and every other character to itself |
| Text.LowerIdempotent | deep_check_officials.py:102 | lower-casing an already lower-cased name changes nothing |
| Text.ContainsIff | deep_check_officials.py:104 | the left-to-right `in` scan succeeds exactly when the needle occurs at some index |
| Text.TrailingDigitsIff | check_officials.py:44 | `\d+$` matches exactly when the name ends in a digit, or in a digit followed by one final line break |
| Text.SimpleNameShape | deep_check_officials.py:74-77 | a match of the simple-name pattern is two capitalised words around the single space, and `split()` yields exactly those two words |
| Records.TruthyEntries | check_officials.py:17-19 | a sighting is produced exactly when some entry maps its position to its non-empty name, and never more sightings than entries |
| Records.TruthyEntriesAppend | check_officials.py:17-19 | the truthy names of a dict split in two are those of the front part followed by those of the back part, so sightings keep dict order |
| Records.TruthyEntriesOne | check_officials.py:18-19 | one entry yields a sighting exactly when its name is non-empty, and then exactly that position and name |
| Records.SightingsAppend | check_officials.py:13-19 | the collection scan keeps record order: scanning a concatenation concatenates the scans |
| Records.SightingsMembership | check_officials.py:13-19 | a sighting is collected exactly when one record contributes it |
| Records.FirstSuccess | deep_check_officials.py:15-22 | the index of the first successful record of the school, and none when there is none |
| Records.Lookup | verify_matching_games.py:70-73 | `d.get(k)` finds nothing exactly when no pair has the key, and otherwise the value of a pair with that key; the one lookup used for officials dicts, counters and the crews dict |
| Counting.Store | deep_check_officials.py:40 | assignment keeps an existing key's position and appends a new key last |
| Counting.StoreLookup | deep_check_officials.py:40 | after the assignment the key reads the new value and every other key reads its old value |
| Counting.Bump | deep_check_officials.py:87 | incrementing, an assignment of the old count plus one, keeps a present key in its place and appends a new key |
| Counting.BumpCount | deep_check_officials.py:87 | incrementing raises the count of that key by one and leaves every other count unchanged |
| Counting.Count | check_officials.py:53 | the counter's keys are distinct |
| Counting.CountKeys | check_officials.py:53 | the counter's keys are exactly the input's elements |
| Counting.CountMatchesMultiset | check_officials.py:53 | each element's count is its number of occurrences in the input, and zero when absent |
| Counting.CountTotal | check_officials.py:53 | the counts add up to the length of the input |
| Counting.RepeatedElements | check_officials.py:54 | the duplicates dict holds exactly the elements occurring more than once, each with its occurrence count |
| Counting.DistinctAtMostLength | check_officials.py:57 | the number of distinct names never exceeds the number of names |
| CheckOfficials.Suspicions | check_officials.py:22-50 | every entry is for a check that flags the name, in check order, each carrying the school, position and name it came from |
| CheckOfficials.SuspicionsMembership | check_officials.py:22-50 | an entry comes from a name exactly when it carries that name's fields and its check holds, so no check that holds is left out |
| CheckOfficials.IsPlaceholder | check_officials.py:22-25 | the whole lowered name must equal one of the six placeholders; a placeholder inside a longer name does not count; case never matters (`PlaceholderIgnoresCase`) |
| CheckOfficials.PlaceholderIgnoresCase | check_officials.py:22-25 | a name and its lower-cased form are flagged as placeholders alike |
| CheckOfficials.IsRepetitive | check_officials.py:34-35 | the name splits into exactly two tokens that are equal, case included; characterised by `RepetitiveIff` |
| CheckOfficials.RepetitiveIff | check_officials.py:34-35 | a name is repetitive exactly when it splits into one word twice |
| CheckOfficials.RepeatedWordIsRepetitive | check_officials.py:34-35 | any word written twice around one space is flagged as repetitive |
| CheckOfficials.RepeatedWordSpacedIsRepetitive | check_officials.py:34-35 | a word written twice is flagged whatever whitespace surrounds the copies, as long as some whitespace separates them ("Test  Test", " Test\tTest\n") |
| CheckOfficials.HasTrailingNumber | check_officials.py:44 | `re.search(r"\d+$", name)`: some run of digits ends where `$` can match; characterised by `TrailingNumberIff` |
| CheckOfficials.TrailingNumberIff | check_officials.py:44 | a name is flagged for numbers exactly when it ends in a digit, or in a digit and one final line break |
| CheckOfficials.AllOfficialsAppend | check_officials.py:13-19 | names are collected in record order |
| CheckOfficials.AllOfficialsMembership | check_officials.py:9-19 | a name is collected exactly when a successful record with a non-empty officials dict maps some position to it and it is non-empty |
| CheckOfficials.SuspiciousNamesExact | check_officials.py:13-50 | an entry is in the suspicious list exactly when its school, position and name were collected together and its reason's check holds |
| CheckOfficials.DuplicateOfficialsExact | check_officials.py:53-54 | a name is a duplicate exactly when it was collected more than once, and its count is its number of occurrences |
| CheckOfficials.NameCountsTotal | check_officials.py:53-56 | the name counts add up to the total printed |
| CheckOfficials.UniqueCount | check_officials.py:57 | the unique count printed never exceeds the total |
| CheckOfficials.SingleWordNames | check_officials.py:86 | a name is kept exactly when it is one of the input names and splits into one token |
| CheckOfficials.SingleNamesExact | check_officials.py:86 | the single-word list keeps every occurrence of a one-token name and drops all other names |
| CheckOfficials.PlaceholderShape | check_officials.py:11 | every placeholder is two different words and ends in a letter |
| CheckOfficials.AtMostTwoReasons | check_officials.py:22-50 | a placeholder is neither repetitive nor numbered, so a name yields at most two entries |
| CheckOfficials.TrailingNumberExamples | check_officials.py:43-44 | three examples: "R2 Smith" is not flagged, "Referee 2" is, and so is "Referee 2" followed by a line break |
| DeepCheckOfficials.ReportFor | deep_check_officials.py:16-21 | the report succeeds exactly when `gameInfo` is a dict with an opponent and officials are absent or a dict, and then lists the truthy entries in dict order |
| DeepCheckOfficials.CheckSchools | deep_check_officials.py:12-22 | fails exactly when some listed school's first successful record cannot be reported |
| DeepCheckOfficials.CheckSchoolsReports | deep_check_officials.py:12-22 | without a failure, reports every found school in list order, each from its first successful record |
| DeepCheckOfficials.CrewsBySchool | deep_check_officials.py:29-40 | the schools of the crew dict are distinct |
| DeepCheckOfficials.CrewsBySchoolFind | deep_check_officials.py:29-40 | each school's crew is that of its last record naming at least one official, and a school without such a record is absent |
| DeepCheckOfficials.IdenticalPairsExact | deep_check_officials.py:43-50 | the pairs are exactly the schools with equal crews, earlier key first; no self-pair, no repeated pair, no pair in both orders |
| DeepCheckOfficials.IdenticalCrews | deep_check_officials.py:43-50 | the nested loops produce exactly those pairs in loop order |
| DeepCheckOfficials.ItemsScan | deep_check_officials.py:67-71 | the unguarded `.items()` loop fails exactly when some successful record has truthy non-dict officials, and otherwise collects exactly the shared scan |
| DeepCheckOfficials.VeryShortSimpleNameIff | deep_check_officials.py:74-78 | a name is flagged exactly when it is a capitalised word of at most 4 letters, a space and a capitalised word of at most 5 letters, optionally followed by one final line break (where `$` also matches) |
| DeepCheckOfficials.FilterGeneric | deep_check_officials.py:74-78 | a sighting is kept exactly when it was collected and its name is very short and simple |
| DeepCheckOfficials.GenericPatternsExact | deep_check_officials.py:64-78 | the generic-pattern list holds exactly the collected names of that shape |
| DeepCheckOfficials.DeepScan | deep_check_officials.py:64-105 | the scans fail exactly when a truthy non-dict officials value is reached, and otherwise start from the shared collection |
| DeepCheckOfficials.PositionCountsExact | deep_check_officials.py:82-87 | position counts add up to the number of names, and each is the number of names filed under that position |
| DeepCheckOfficials.KeywordHits | deep_check_officials.py:103-105 | every hit for one name is that name's own (domain, position, name) triple |
| DeepCheckOfficials.KeywordHitsCount | deep_check_officials.py:103-105 | a name is reported once per distinct keyword in its lower-cased form |
| DeepCheckOfficials.KeywordScanOfOne | deep_check_officials.py:103-105 | with the seven keywords, a single name is reported once per distinct keyword it contains |
| DeepCheckOfficials.KeywordHitsOfAppend | deep_check_officials.py:99-105 | the keyword scan keeps collection order: scanning a concatenation concatenates the scans |
| DeepCheckOfficials.KeywordHitsOfCount | deep_check_officials.py:99-105 | over any list of names, each triple is reported once per occurrence and per keyword hit it gets on its own |
| DeepCheckOfficials.KeywordScanCount | deep_check_officials.py:95-105 | `found_suspicious` holds each collected triple exactly (occurrences) x (distinct keywords in its lower-cased name) times |
| AnalyzeOfficials.NonNullCount | analyze_officials.py:15 | the count is zero exactly when every value is null, so an empty string counts as present |
| AnalyzeOfficials.ListedIff | analyze_officials.py:10-16 | a record is listed exactly when it succeeded and its officials key is absent or holds a dict whose every value is null |
| AnalyzeOfficials.EntryFor | analyze_officials.py:17-22 | the school defaults to the domain and the opponent to "Unknown"; only a null `gameInfo` makes the entry raise |
| AnalyzeOfficials.ListedFrom | analyze_officials.py:9-16 | the listed record positions, strictly increasing, and every listed position occurs |
| AnalyzeOfficials.NoOfficialsFrom | analyze_officials.py:9-22 | the loop fails exactly when a listed record has a null `gameInfo` |
| AnalyzeOfficials.NoOfficialsFromEntries | analyze_officials.py:9-22 | without a failure, the k-th entry is the one built from the k-th listed record |
| AnalyzeOfficials.NoOfficialsExact | analyze_officials.py:7-22 | the whole list is the listed records in input order, each entry from its own record, or the failure of the first listed record with a null `gameInfo` |
| AnalyzeOfficials.EmptyStringCountsAsPresent | analyze_officials.py:12-16 | any dict holding an empty-string name keeps its record off the list; an empty or absent dict puts it on; a null one does not |
| VerifyMatchingGames.SchoolGames | verify_matching_games.py:7-10 | every key of the lookup is the domain of a successful record with a non-empty `gameInfo` |
| VerifyMatchingGames.SchoolGamesLast | verify_matching_games.py:7-10 | a domain is in the lookup exactly when such a record exists, and maps to the opponent, or "Unknown", of the last one |
| VerifyMatchingGames.OpponentOfLookup | verify_matching_games.py:7-10 | the lookup answers with the opponent, or "Unknown", of the school's last recorded record, and "Not found" when there is none |
| VerifyMatchingGames.BranchHolds | verify_matching_games.py:40-54 | the eighteen substring tests of the eight branches, with the last branch as written or corrected; a verdict holds exactly when one of them does (`ConfirmedIff`, `ReportPair`) |
| VerifyMatchingGames.FirstBranchFrom | verify_matching_games.py:40-55 | the `elif` chain stops at the first branch whose condition holds, and at none when none holds |
| VerifyMatchingGames.ConfirmedIff | verify_matching_games.py:40-55 | the confirmation line is printed exactly when one of the substring tests holds |
| VerifyMatchingGames.KnownPairsConfirmed | verify_matching_games.py:16-55 | with the corrected last branch, pair k is confirmed by branch k when each school's opponent is the other school's team |
| VerifyMatchingGames.TroyClemsonConfirmed | verify_matching_games.py:23-55 | with the corrected last branch, Troy playing "Clemson" and Clemson playing "Troy" is confirmed, by the last branch |
| VerifyMatchingGames.AsWrittenMissesTroyClemson | verify_matching_games.py:54 | the chain as written confirms no branch for Troy playing Clemson |
| VerifyMatchingGames.ChainsAgreeOnFirstSeven | verify_matching_games.py:40-53 | the correction changes nothing for pairs settled by the first seven branches |
| VerifyMatchingGames.ReportPair | verify_matching_games.py:27-55 | a report shows both schools with the lookup's answers, and is confirmed exactly when one of the chain's tests holds of them |
| VerifyMatchingGames.PairReports | verify_matching_games.py:27-37 | one report per listed pair, in list order, naming that pair's schools |
| VerifyMatchingGames.PairReportLookup | verify_matching_games.py:7-29 | each report shows, for both schools, the opponent of the last recorded record, or "Not found" |
| VerifyMatchingGames.TeamNamedConfirms | verify_matching_games.py:40-55 | pair k's own branch holds, and the line is printed, as soon as one side's opponent text contains the other team's name (the second school's opponent contains the first team, or the reverse): for every pair with the corrected chain, for the first seven with the script's |
| VerifyMatchingGames.PairReportConfirmsKnownGame | verify_matching_games.py:27-55 | a pair is confirmed when either looked-up opponent contains the other team's name, so "at Clemson" or "ULM Warhawks" suffice: by the corrected chain for every pair, and by the script's chain for the first seven |
| VerifyMatchingGames.PairReportMissesTroyClemson | verify_matching_games.py:23-55 | when Troy's opponent reads exactly "Clemson" and Clemson's reads "Troy", the script's report lacks the confirmation line, while the corrected chain prints it |
| VerifyMatchingGames.NotFoundNeverConfirmed | verify_matching_games.py:28-55 | a pair with neither school in the lookup shows "Not found" twice and is not confirmed by either chain |
| VerifyMatchingGames.PairReportsIgnoreOfficials | verify_matching_games.py:35-37 | runs differing only in officials give identical pair reports, so "SAME OFFICIALS" is never checked |
| VerifyMatchingGames.SchoolGamesIgnoreOfficials | verify_matching_games.py:7-10 | the opponent lookup is the same for runs that differ only in officials |
| VerifyMatchingGames.ShownIff | verify_matching_games.py:70-73 | a referee or umpire is shown exactly when the first entry with that key maps it to a non-empty name, and it is that name |
| VerifyMatchingGames.SampleOf | verify_matching_games.py:66-73 | a school is sampled exactly when its officials are a dict with some truthy value; a truthy non-dict raises on `.values()` |
| VerifyMatchingGames.Samples | verify_matching_games.py:62-74 | fails exactly when some school's sample raises; otherwise every sample is some listed school's sample and every listed school's sample is printed |
| VerifyMatchingGames.SamplesAppend | verify_matching_games.py:62-74 | samples come out in school-list order: the samples of a concatenation are those of its parts, one after the other |
| VerifyMatchingGames.SampleShowsFirstRecord | verify_matching_games.py:63-74 | every sample comes from the first successful record of its school, and each name it shows is that record's truthy entry |

## Left out

- Reading the results file and JSON decoding (the first lines of every
  script). The model starts from the decoded records.
- Printing and message text. Each report is returned as a value: lists,
  counters, pairs and samples.
- `Counter.most_common` ordering (check_officials.py:63 and
  deep_check_officials.py:89). Counts are modelled in first-occurrence order;
  sorting by count and the top-ten cut are presentation only.
- `random.sample` of twenty names (check_officials.py:81). The names are
  randomly chosen and only printed.
- `single_names[:10]` (check_officials.py:90): the cut is only printed.
- `name1` and `name2` (verify_matching_games.py:32-33): computed and never
  used.
- Running the stages of one script in sequence. Each stage is a separate
  function with its own failure, and a script that raises in an early stage
  never reaches the later ones.
- Record fields of other shapes:
  - officials values other than strings and null;
  - a null or absent `domain` or `success`, or a null `school` or `opponent`;
  - a `gameInfo` that is neither absent, null nor a dict. A truthy one (a
    non-empty list or string, a non-zero number, `true`) and a falsy one
    (`[]`, `""`, `0`, `false`) both raise in the scripts: `AttributeError` on
    `.get` at analyze_officials.py:20, and `TypeError` on `['opponent']` at
    deep_check_officials.py:17.
  
  The records are typed so these cannot occur.
- Unicode case mapping: `Text.Lower` maps only `A`–`Z`. Python's `lower()`
  maps other letters too, but only two non-ASCII characters lower-case to
  something containing an ASCII letter:
  - U+212A KELVIN SIGN lowers to `k`, and no placeholder or keyword contains
    `k`;
  - U+0130 lowers to `i` followed by a combining dot, which no placeholder or
    keyword contains.
  
  So the placeholder and keyword tests decide the same way.
- Unicode digits: `\d` is modelled as `0`–`9`. Python also accepts other
  Unicode decimal digits there.
- TrailingNumberExamples: three fixed names only. The general statement is
  `CheckOfficials.TrailingNumberIff`.
- Duplicate keys within one JSON object: decoding keeps the last value.
  `Records.Lookup` reads the first entry, so the entries of a dict are
  assumed to have distinct keys, as a decoded dict does.

## Findings

| source | as written | input that shows it | evidently intended | confidence | as-written member | corrected member |
|---|---|---|---|---|---|---|
| verify_matching_games.py:54 | `'Clemson' in opp2 or 'Troy' in opp1` looks for each team in its own school's opponent | troytrojans.com plays "Clemson" and clemsontigers.com plays "Troy" (`opp1 = "Clemson"`, `opp2 = "Troy"`): none of the eighteen tests holds, so the pair is not confirmed | `'Troy' in opp2 or 'Clemson' in opp1`: the first school's team in the second school's opponent, as in the other seven branches | high; not executed | VerifyMatchingGames.PairReportMissesTroyClemson | VerifyMatchingGames.TroyClemsonConfirmed |
