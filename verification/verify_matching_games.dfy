/**
 The home/away cross-check for crews reported as identical: the opponent each
 school's scrape found, the fixed list of school pairs with their chain of
 substring tests that confirms a pair plays each other, and the sample of
 referee and umpire names from a few major schools.
 */
module VerifyMatchingGames {
  import opened Records
  import opened Text

  // ---------------------------------------------------------------------
  // school_games
  // ---------------------------------------------------------------------

  /** `result['success'] and result.get('gameInfo')`: the record enters the lookup. */
  predicate Recorded(r: ScrapeRecord) {
    r.success && GameInfoTruthy(r.gameInfo)
  }

  /** `result['gameInfo'].get('opponent', 'Unknown')` on a truthy `gameInfo` dict. */
  function OpponentText(g: GameInfoField): string {
    if g.GameInfoDict? && g.opponent.Some? then g.opponent.value else "Unknown"
  }

  /** `school_games`: domain to opponent, where a later record of the same
      domain overwrites an earlier one. */
  function SchoolGames(results: seq<ScrapeRecord>): (m: map<string, string>)
    ensures forall d :: d in m ==> exists i :: 0 <= i < |results| && Recorded(results[i]) && results[i].domain == d
    decreases |results|
  {
    if |results| == 0 then map[]
    else
      var init := results[..|results| - 1];
      var r := results[|results| - 1];
      var prev := SchoolGames(init);
      assert forall i :: 0 <= i < |init| ==> results[i] == init[i];
      if Recorded(r) then prev[r.domain := OpponentText(r.gameInfo)] else prev
  }

  /** Reference definition: the index of the last recorded record of `domain`. */
  function LastRecorded(results: seq<ScrapeRecord>, domain: string): (r: Option<nat>)
    ensures r.Some? ==> r.value < |results| && Recorded(results[r.value]) && results[r.value].domain == domain
    ensures r.Some? ==> forall j :: r.value < j < |results| ==> !(Recorded(results[j]) && results[j].domain == domain)
    ensures r.None? ==> forall j :: 0 <= j < |results| ==> !(Recorded(results[j]) && results[j].domain == domain)
    decreases |results|
  {
    if |results| == 0 then None
    else
      var last := results[|results| - 1];
      if Recorded(last) && last.domain == domain then Some(|results| - 1)
      else LastRecorded(results[..|results| - 1], domain)
  }

  /** The lookup holds a domain exactly when some recorded record has it, and
      then maps it to the opponent of the last such record. */
  lemma {:induction false} SchoolGamesLast(results: seq<ScrapeRecord>, domain: string)
    ensures domain in SchoolGames(results) <==> LastRecorded(results, domain).Some?
    ensures domain in SchoolGames(results) ==>
      SchoolGames(results)[domain] == OpponentText(results[LastRecorded(results, domain).value].gameInfo)
    decreases |results|
  {
    if |results| > 0 {
      var init := results[..|results| - 1];
      SchoolGamesLast(init, domain);
      var r := results[|results| - 1];
      if !(Recorded(r) && r.domain == domain) {
        var li := LastRecorded(init, domain);
        if li.Some? {
          assert results[li.value] == init[li.value];
        }
      }
    }
  }

  /** `school_games.get(school, 'Not found')`. */
  function OpponentOf(games: map<string, string>, school: string): (o: string)
    ensures school in games ==> o == games[school]
    ensures school !in games ==> o == "Not found"
  {
    if school in games then games[school] else "Not found"
  }

  /** What the lookup answers for a school: the opponent of its last recorded
      record, or "Not found" when it has none. */
  lemma OpponentOfLookup(results: seq<ScrapeRecord>, school: string)
    ensures var i := LastRecorded(results, school);
      OpponentOf(SchoolGames(results), school) == if i.None? then "Not found" else OpponentText(results[i.value].gameInfo)
  {
    SchoolGamesLast(results, school);
  }

  // ---------------------------------------------------------------------
  // The confirmation chain
  // ---------------------------------------------------------------------

  /** The chain as the script writes it, and with its last branch corrected. */
  datatype Chain = AsWritten | Corrected

  /** The number of branches of the chain. */
  const BranchCount: nat := 8

  /** The condition of branch `i` of the `if`/`elif` chain: eighteen substring
      tests in eight branches. Each branch but the last of the script looks for
      the first school's team in `opp2` or the second school's team in `opp1`;
      the script's last branch does the opposite, and the corrected chain turns
      it the way of the other seven. */
  predicate BranchHolds(chain: Chain, i: nat, opp1: string, opp2: string) {
    if i == 0 then Contains(opp2, "Alabama") || Contains(opp1, "ULM")
    else if i == 1 then Contains(opp2, "Florida") || Contains(opp1, "South Florida") || Contains(opp1, "USF")
    else if i == 2 then Contains(opp2, "LSU") || Contains(opp1, "Louisiana Tech") || Contains(opp1, "LA Tech")
    else if i == 3 then Contains(opp2, "Missouri") || Contains(opp1, "Kansas")
    else if i == 4 then Contains(opp1, "Iowa State") || Contains(opp2, "Iowa")
    else if i == 5 then Contains(opp2, "Houston") || Contains(opp1, "Rice")
    else if i == 6 then Contains(opp2, "Navy") || Contains(opp1, "UAB")
    else if i == 7 then
      if chain == AsWritten then Contains(opp2, "Clemson") || Contains(opp1, "Troy")
      else Contains(opp2, "Troy") || Contains(opp1, "Clemson")
    else false
  }

  /** The chain from branch `from` on: the index of the first branch whose
      condition holds. */
  function FirstBranchFrom(chain: Chain, opp1: string, opp2: string, from: nat): (r: Option<nat>)
    ensures r.Some? ==> from <= r.value < BranchCount && BranchHolds(chain, r.value, opp1, opp2)
    ensures r.Some? ==> forall j :: from <= j < r.value ==> !BranchHolds(chain, j, opp1, opp2)
    ensures r.None? ==> forall j :: from <= j < BranchCount ==> !BranchHolds(chain, j, opp1, opp2)
    decreases BranchCount - from
  {
    if from >= BranchCount then None
    else if BranchHolds(chain, from, opp1, opp2) then Some(from)
    else FirstBranchFrom(chain, opp1, opp2, from + 1)
  }

  function FirstBranch(chain: Chain, opp1: string, opp2: string): Option<nat> {
    FirstBranchFrom(chain, opp1, opp2, 0)
  }

  /** The confirmation line is printed: some branch fires. */
  predicate Confirmed(chain: Chain, opp1: string, opp2: string) {
    FirstBranch(chain, opp1, opp2).Some?
  }

  /** The chain prints its line exactly when one of its branches holds. */
  lemma ConfirmedIff(chain: Chain, opp1: string, opp2: string)
    ensures Confirmed(chain, opp1, opp2) <==> exists i :: 0 <= i < BranchCount && BranchHolds(chain, i, opp1, opp2)
  {
    if exists i :: 0 <= i < BranchCount && BranchHolds(chain, i, opp1, opp2) {
      var i :| 0 <= i < BranchCount && BranchHolds(chain, i, opp1, opp2);
      assert FirstBranch(chain, opp1, opp2).Some?;
    }
  }

  /** The school pairs of lines 16-25 with the team each domain belongs to. */
  datatype KnownPair = KnownPair(school1: string, school2: string, team1: string, team2: string)

  const PairsToCheck: seq<KnownPair> := [
    KnownPair("rolltide.com", "ulmwarhawks.com", "Alabama", "ULM"),
    KnownPair("floridagators.com", "gousfbulls.com", "Florida", "USF"),
    KnownPair("lsusports.net", "latechsports.com", "LSU", "LA Tech"),
    KnownPair("mutigers.com", "kuathletics.com", "Missouri", "Kansas"),
    KnownPair("hawkeyesports.com", "cyclones.com", "Iowa", "Iowa State"),
    KnownPair("uhcougars.com", "riceowls.com", "Houston", "Rice"),
    KnownPair("navysports.com", "uabsports.com", "Navy", "UAB"),
    KnownPair("troytrojans.com", "clemsontigers.com", "Troy", "Clemson")
  ]

  /** The chain stops at branch `k` when it holds and no earlier one does. */
  lemma {:induction false} FiresAt(chain: Chain, opp1: string, opp2: string, k: nat, from: nat)
    requires from <= k < BranchCount && BranchHolds(chain, k, opp1, opp2)
    requires forall j :: from <= j < k ==> !BranchHolds(chain, j, opp1, opp2)
    ensures FirstBranchFrom(chain, opp1, opp2, from) == Some(k)
    decreases k - from
  {
    if from < k {
      FiresAt(chain, opp1, opp2, k, from + 1);
    }
  }

  /** A branch that fails passes control to the next. */
  lemma Skips(chain: Chain, opp1: string, opp2: string, from: nat)
    requires from < BranchCount && !BranchHolds(chain, from, opp1, opp2)
    ensures FirstBranchFrom(chain, opp1, opp2, from) == FirstBranchFrom(chain, opp1, opp2, from + 1)
  {
  }

  /** With the corrected chain, pair `k` is confirmed by its own branch and by
      no earlier one: when the first school's opponent names the second team
      and the second school's opponent names the first, branch `k` fires. */
  lemma KnownPairsConfirmed(k: nat)
    requires k < |PairsToCheck|
    ensures FirstBranch(Corrected, PairsToCheck[k].team2, PairsToCheck[k].team1) == Some(k)
  {
    var o1, o2 := PairsToCheck[k].team2, PairsToCheck[k].team1;
    if k == 0 {
      ContainsSelf(o2);
    } else if k == 1 {
      FloridaUsfConfirmed(o1, o2);
    } else if k == 2 {
      LsuLaTechConfirmed(o1, o2);
    } else if k == 3 {
      MissouriKansasConfirmed(o1, o2);
    } else if k == 4 {
      IowaIowaStateConfirmed(o1, o2);
    } else if k == 5 {
      HoustonRiceConfirmed(o1, o2);
    } else if k == 6 {
      NavyUabConfirmed(o1, o2);
    } else {
      TroyClemsonConfirmed(o1, o2);
    }
  }

  /** Pair `k`'s own branch holds as soon as one side names the other team:
      the second school's opponent contains the first team, or the first
      school's opponent contains the second. The script's chain agrees for
      the first seven pairs. */
  lemma TeamNamedConfirms(chain: Chain, k: nat, opp1: string, opp2: string)
    requires k < |PairsToCheck|
    requires chain == Corrected || k < 7
    requires Contains(opp2, PairsToCheck[k].team1) || Contains(opp1, PairsToCheck[k].team2)
    ensures BranchHolds(chain, k, opp1, opp2)
    ensures Confirmed(chain, opp1, opp2)
  {
    assert BranchHolds(chain, k, opp1, opp2);
    ConfirmedIff(chain, opp1, opp2);
  }

  // Each opponent name below rules out, by a missing first or second letter,
  // every name the branches before its pair's own look for on its side.

  lemma UsfExcludes(s: string)
    requires s == "USF"
    ensures Excluded(s, "ULM")
  {
  }

  lemma FloridaExcludes(s: string)
    requires s == "Florida"
    ensures Excluded(s, "Alabama")
  {
  }

  lemma LaTechExcludes(s: string)
    requires s == "LA Tech"
    ensures Excluded(s, "ULM") && Excluded(s, "South Florida") && Excluded(s, "USF")
  {
  }

  lemma LsuExcludes(s: string)
    requires s == "LSU"
    ensures Excluded(s, "Alabama") && Excluded(s, "Florida")
  {
  }

  lemma KansasExcludes(s: string)
    requires s == "Kansas"
    ensures Excluded(s, "ULM") && Excluded(s, "South Florida") && Excluded(s, "USF") &&
      Excluded(s, "Louisiana Tech") && Excluded(s, "LA Tech")
  {
  }

  lemma MissouriExcludes(s: string)
    requires s == "Missouri"
    ensures Excluded(s, "Alabama") && Excluded(s, "Florida") && Excluded(s, "LSU")
  {
  }

  lemma IowaStateExcludes(s: string)
    requires s == "Iowa State"
    ensures Excluded(s, "ULM") && Excluded(s, "South Florida") && Excluded(s, "USF") &&
      Excluded(s, "Louisiana Tech") && Excluded(s, "LA Tech") && Excluded(s, "Kansas")
  {
  }

  lemma IowaExcludes(s: string)
    requires s == "Iowa"
    ensures Excluded(s, "Alabama") && Excluded(s, "Florida") && Excluded(s, "LSU") &&
      Excluded(s, "Missouri")
  {
  }

  lemma RiceExcludes(s: string)
    requires s == "Rice"
    ensures Excluded(s, "ULM") && Excluded(s, "South Florida") && Excluded(s, "USF") &&
      Excluded(s, "Louisiana Tech") && Excluded(s, "LA Tech") && Excluded(s, "Kansas") &&
      Excluded(s, "Iowa State")
  {
  }

  lemma HoustonExcludes(s: string)
    requires s == "Houston"
    ensures Excluded(s, "Alabama") && Excluded(s, "Florida") && Excluded(s, "LSU") &&
      Excluded(s, "Missouri") && Excluded(s, "Iowa")
  {
  }

  lemma UabExcludes(s: string)
    requires s == "UAB"
    ensures Excluded(s, "ULM") && Excluded(s, "South Florida") && Excluded(s, "USF") &&
      Excluded(s, "Louisiana Tech") && Excluded(s, "LA Tech") && Excluded(s, "Kansas") &&
      Excluded(s, "Iowa State") && Excluded(s, "Rice")
  {
  }

  lemma NavyExcludes(s: string)
    requires s == "Navy"
    ensures Excluded(s, "Alabama") && Excluded(s, "Florida") && Excluded(s, "LSU") &&
      Excluded(s, "Missouri") && Excluded(s, "Iowa") && Excluded(s, "Houston")
  {
  }

  lemma ClemsonExcludes(s: string)
    requires s == "Clemson"
    ensures Excluded(s, "ULM") && Excluded(s, "South Florida") && Excluded(s, "USF") &&
      Excluded(s, "Louisiana Tech") && Excluded(s, "LA Tech") && Excluded(s, "Kansas") &&
      Excluded(s, "Iowa State") && Excluded(s, "Rice") && Excluded(s, "UAB") && Excluded(s, "Troy")
  {
  }

  lemma TroyExcludes(s: string)
    requires s == "Troy"
    ensures Excluded(s, "Alabama") && Excluded(s, "Florida") && Excluded(s, "LSU") &&
      Excluded(s, "Missouri") && Excluded(s, "Iowa") && Excluded(s, "Houston") &&
      Excluded(s, "Navy") && Excluded(s, "Clemson")
  {
  }

  lemma NotFoundExcludesFirstTeams(s: string)
    requires s == "Not found"
    ensures Excluded(s, "Alabama") && Excluded(s, "Florida") && Excluded(s, "LSU") &&
      Excluded(s, "Missouri") && Excluded(s, "Iowa") && Excluded(s, "Houston") &&
      Excluded(s, "Navy") && Excluded(s, "Troy")
  {
  }

  lemma NotFoundExcludesSecondTeams(s: string)
    requires s == "Not found"
    ensures Excluded(s, "ULM") && Excluded(s, "South Florida") && Excluded(s, "USF") &&
      Excluded(s, "Louisiana Tech") && Excluded(s, "LA Tech") && Excluded(s, "Kansas") &&
      Excluded(s, "Iowa State") && Excluded(s, "Rice") && Excluded(s, "UAB") &&
      Excluded(s, "Clemson")
  {
  }

  lemma FloridaUsfConfirmed(o1: string, o2: string)
    requires o1 == "USF" && o2 == "Florida"
    ensures FirstBranch(Corrected, o1, o2) == Some(1)
  {
    UsfExcludes(o1);
    FloridaExcludes(o2);
    ExcludedAbsent(o2, "Alabama");
    ExcludedAbsent(o1, "ULM");
    Skips(Corrected, o1, o2, 0);
    ContainsSelf(o2);
  }

  lemma LsuLaTechConfirmed(o1: string, o2: string)
    requires o1 == "LA Tech" && o2 == "LSU"
    ensures FirstBranch(Corrected, o1, o2) == Some(2)
  {
    LaTechExcludes(o1);
    LsuExcludes(o2);
    ExcludedAbsent(o2, "Alabama");
    ExcludedAbsent(o1, "ULM");
    Skips(Corrected, o1, o2, 0);
    ExcludedAbsent(o2, "Florida");
    ExcludedAbsent(o1, "South Florida");
    ExcludedAbsent(o1, "USF");
    Skips(Corrected, o1, o2, 1);
    ContainsSelf(o2);
  }

  lemma MissouriKansasConfirmed(o1: string, o2: string)
    requires o1 == "Kansas" && o2 == "Missouri"
    ensures FirstBranch(Corrected, o1, o2) == Some(3)
  {
    KansasExcludes(o1);
    MissouriExcludes(o2);
    ExcludedAbsent(o2, "Alabama");
    ExcludedAbsent(o1, "ULM");
    Skips(Corrected, o1, o2, 0);
    ExcludedAbsent(o2, "Florida");
    ExcludedAbsent(o1, "South Florida");
    ExcludedAbsent(o1, "USF");
    Skips(Corrected, o1, o2, 1);
    ExcludedAbsent(o2, "LSU");
    ExcludedAbsent(o1, "Louisiana Tech");
    ExcludedAbsent(o1, "LA Tech");
    Skips(Corrected, o1, o2, 2);
    ContainsSelf(o2);
  }

  lemma IowaIowaStateConfirmed(o1: string, o2: string)
    requires o1 == "Iowa State" && o2 == "Iowa"
    ensures FirstBranch(Corrected, o1, o2) == Some(4)
  {
    IowaStateExcludes(o1);
    IowaExcludes(o2);
    ExcludedAbsent(o2, "Alabama");
    ExcludedAbsent(o1, "ULM");
    Skips(Corrected, o1, o2, 0);
    ExcludedAbsent(o2, "Florida");
    ExcludedAbsent(o1, "South Florida");
    ExcludedAbsent(o1, "USF");
    Skips(Corrected, o1, o2, 1);
    ExcludedAbsent(o2, "LSU");
    ExcludedAbsent(o1, "Louisiana Tech");
    ExcludedAbsent(o1, "LA Tech");
    Skips(Corrected, o1, o2, 2);
    ExcludedAbsent(o2, "Missouri");
    ExcludedAbsent(o1, "Kansas");
    Skips(Corrected, o1, o2, 3);
    ContainsSelf(o1);
  }

  lemma HoustonRiceConfirmed(o1: string, o2: string)
    requires o1 == "Rice" && o2 == "Houston"
    ensures FirstBranch(Corrected, o1, o2) == Some(5)
  {
    RiceExcludes(o1);
    HoustonExcludes(o2);
    ExcludedAbsent(o2, "Alabama");
    ExcludedAbsent(o1, "ULM");
    Skips(Corrected, o1, o2, 0);
    ExcludedAbsent(o2, "Florida");
    ExcludedAbsent(o1, "South Florida");
    ExcludedAbsent(o1, "USF");
    Skips(Corrected, o1, o2, 1);
    ExcludedAbsent(o2, "LSU");
    ExcludedAbsent(o1, "Louisiana Tech");
    ExcludedAbsent(o1, "LA Tech");
    Skips(Corrected, o1, o2, 2);
    ExcludedAbsent(o2, "Missouri");
    ExcludedAbsent(o1, "Kansas");
    Skips(Corrected, o1, o2, 3);
    ExcludedAbsent(o1, "Iowa State");
    ExcludedAbsent(o2, "Iowa");
    Skips(Corrected, o1, o2, 4);
    ContainsSelf(o2);
  }

  lemma NavyUabConfirmed(o1: string, o2: string)
    requires o1 == "UAB" && o2 == "Navy"
    ensures FirstBranch(Corrected, o1, o2) == Some(6)
  {
    UabExcludes(o1);
    NavyExcludes(o2);
    ExcludedAbsent(o2, "Alabama");
    ExcludedAbsent(o1, "ULM");
    Skips(Corrected, o1, o2, 0);
    ExcludedAbsent(o2, "Florida");
    ExcludedAbsent(o1, "South Florida");
    ExcludedAbsent(o1, "USF");
    Skips(Corrected, o1, o2, 1);
    ExcludedAbsent(o2, "LSU");
    ExcludedAbsent(o1, "Louisiana Tech");
    ExcludedAbsent(o1, "LA Tech");
    Skips(Corrected, o1, o2, 2);
    ExcludedAbsent(o2, "Missouri");
    ExcludedAbsent(o1, "Kansas");
    Skips(Corrected, o1, o2, 3);
    ExcludedAbsent(o1, "Iowa State");
    ExcludedAbsent(o2, "Iowa");
    Skips(Corrected, o1, o2, 4);
    ExcludedAbsent(o2, "Houston");
    ExcludedAbsent(o1, "Rice");
    Skips(Corrected, o1, o2, 5);
    ContainsSelf(o2);
  }

  /** Troy's opponent "Clemson" and Clemson's opponent "Troy" escape the first
      seven branches of either chain. */
  lemma TroyClemsonEarlyMisses(chain: Chain, o1: string, o2: string)
    requires o1 == "Clemson" && o2 == "Troy"
    ensures FirstBranch(chain, o1, o2) == FirstBranchFrom(chain, o1, o2, 7)
  {
    ClemsonExcludes(o1);
    TroyExcludes(o2);
    ExcludedAbsent(o2, "Alabama");
    ExcludedAbsent(o1, "ULM");
    Skips(chain, o1, o2, 0);
    ExcludedAbsent(o2, "Florida");
    ExcludedAbsent(o1, "South Florida");
    ExcludedAbsent(o1, "USF");
    Skips(chain, o1, o2, 1);
    ExcludedAbsent(o2, "LSU");
    ExcludedAbsent(o1, "Louisiana Tech");
    ExcludedAbsent(o1, "LA Tech");
    Skips(chain, o1, o2, 2);
    ExcludedAbsent(o2, "Missouri");
    ExcludedAbsent(o1, "Kansas");
    Skips(chain, o1, o2, 3);
    ExcludedAbsent(o1, "Iowa State");
    ExcludedAbsent(o2, "Iowa");
    Skips(chain, o1, o2, 4);
    ExcludedAbsent(o2, "Houston");
    ExcludedAbsent(o1, "Rice");
    Skips(chain, o1, o2, 5);
    ExcludedAbsent(o2, "Navy");
    ExcludedAbsent(o1, "UAB");
    Skips(chain, o1, o2, 6);
  }

  lemma TroyClemsonConfirmed(o1: string, o2: string)
    requires o1 == "Clemson" && o2 == "Troy"
    ensures FirstBranch(Corrected, o1, o2) == Some(7)
  {
    TroyClemsonEarlyMisses(Corrected, o1, o2);
    ContainsSelf(o2);
  }

  /** The script as written never confirms Troy and Clemson: with Troy's
      opponent "Clemson" and Clemson's opponent "Troy", every one of the
      eighteen tests fails, because the last branch looks for each team in its
      own school's opponent. */
  lemma AsWrittenMissesTroyClemson(o1: string, o2: string)
    requires o1 == "Clemson" && o2 == "Troy"
    ensures FirstBranch(AsWritten, o1, o2) == None
  {
    TroyClemsonEarlyMisses(AsWritten, o1, o2);
    ClemsonExcludes(o1);
    TroyExcludes(o2);
    ExcludedAbsent(o2, "Clemson");
    ExcludedAbsent(o1, "Troy");
    Skips(AsWritten, o1, o2, 7);
  }

  /** The correction touches only the last branch: for the first seven the
      two chains stop at the same place. */
  lemma ChainsAgreeOnFirstSeven(opp1: string, opp2: string, k: nat)
    requires k < 7
    ensures FirstBranch(Corrected, opp1, opp2) == Some(k) <==> FirstBranch(AsWritten, opp1, opp2) == Some(k)
  {
    assert forall j :: 0 <= j < 7 ==> (BranchHolds(Corrected, j, opp1, opp2) <==> BranchHolds(AsWritten, j, opp1, opp2));
    if FirstBranch(Corrected, opp1, opp2) == Some(k) {
      FiresAt(AsWritten, opp1, opp2, k, 0);
    }
    if FirstBranch(AsWritten, opp1, opp2) == Some(k) {
      FiresAt(Corrected, opp1, opp2, k, 0);
    }
  }

  // ---------------------------------------------------------------------
  // The pair report
  // ---------------------------------------------------------------------

  /** What the script prints for one pair: both schools with the opponent the
      lookup gives, the "SAME OFFICIALS" line, and whether the chain confirms. */
  datatype PairReport = PairReport(school1: string, opp1: string, school2: string, opp2: string, confirmed: bool)

  /** One pass of the loop body: the opponents the lookup gives both schools,
      and the verdict of `chain` on them. */
  function ReportPair(chain: Chain, games: map<string, string>, p: KnownPair): (r: PairReport)
    ensures r.school1 == p.school1 && r.school2 == p.school2
    ensures r.opp1 == OpponentOf(games, p.school1) && r.opp2 == OpponentOf(games, p.school2)
    ensures r.confirmed <==> exists i :: 0 <= i < BranchCount && BranchHolds(chain, i, r.opp1, r.opp2)
  {
    var opp1 := OpponentOf(games, p.school1);
    var opp2 := OpponentOf(games, p.school2);
    ConfirmedIff(chain, opp1, opp2);
    PairReport(p.school1, opp1, p.school2, opp2, Confirmed(chain, opp1, opp2))
  }

  /** The loop of lines 27-55, one report per pair in list order; the script
      runs it with the chain `AsWritten`. */
  function PairReports(chain: Chain, results: seq<ScrapeRecord>): (r: seq<PairReport>)
    ensures |r| == |PairsToCheck|
    ensures forall k :: 0 <= k < |r| ==> r[k].school1 == PairsToCheck[k].school1 && r[k].school2 == PairsToCheck[k].school2
  {
    var games := SchoolGames(results);
    seq(|PairsToCheck|, k requires 0 <= k < |PairsToCheck| => ReportPair(chain, games, PairsToCheck[k]))
  }

  /** The opponents a report shows are those of the last recorded record of
      each school, or "Not found" when there is none. */
  lemma PairReportLookup(chain: Chain, results: seq<ScrapeRecord>, k: nat)
    requires k < |PairsToCheck|
    ensures var i := LastRecorded(results, PairsToCheck[k].school1);
      PairReports(chain, results)[k].opp1 == if i.None? then "Not found" else OpponentText(results[i.value].gameInfo)
    ensures var i := LastRecorded(results, PairsToCheck[k].school2);
      PairReports(chain, results)[k].opp2 == if i.None? then "Not found" else OpponentText(results[i.value].gameInfo)
  {
    OpponentOfLookup(results, PairsToCheck[k].school1);
    OpponentOfLookup(results, PairsToCheck[k].school2);
  }

  /** A pair whose schools the lookup shows playing each other is confirmed by
      the corrected chain, and by the script's own chain for all but the last
      pair, whose branch differs. */
  lemma PairReportConfirmsKnownGame(chain: Chain, results: seq<ScrapeRecord>, k: nat)
    requires k < |PairsToCheck|
    requires chain == Corrected || k < 7
    requires var games := SchoolGames(results);
      || Contains(OpponentOf(games, PairsToCheck[k].school2), PairsToCheck[k].team1)
      || Contains(OpponentOf(games, PairsToCheck[k].school1), PairsToCheck[k].team2)
    ensures PairReports(chain, results)[k].confirmed
  {
    var games := SchoolGames(results);
    TeamNamedConfirms(chain, k, OpponentOf(games, PairsToCheck[k].school1), OpponentOf(games, PairsToCheck[k].school2));
  }

  /** The last pair as the script reports it: Troy and Clemson shown playing
      each other, yet the confirmation line is missing; the corrected chain
      prints it. */
  lemma PairReportMissesTroyClemson(results: seq<ScrapeRecord>)
    requires OpponentOf(SchoolGames(results), PairsToCheck[7].school1) == PairsToCheck[7].team2
    requires OpponentOf(SchoolGames(results), PairsToCheck[7].school2) == PairsToCheck[7].team1
    ensures !PairReports(AsWritten, results)[7].confirmed
    ensures PairReports(Corrected, results)[7].confirmed
  {
    var o1 := OpponentOf(SchoolGames(results), PairsToCheck[7].school1);
    var o2 := OpponentOf(SchoolGames(results), PairsToCheck[7].school2);
    AsWrittenMissesTroyClemson(o1, o2);
    TroyClemsonConfirmed(o1, o2);
  }

  /** Neither chain confirms a pair whose opponents are both "Not found". */
  lemma NotFoundMisses(chain: Chain, nf: string)
    requires nf == "Not found"
    ensures FirstBranch(chain, nf, nf) == None
  {
    NotFoundExcludesFirstTeams(nf);
    NotFoundExcludesSecondTeams(nf);
    ExcludedAbsent(nf, "Alabama");
    ExcludedAbsent(nf, "ULM");
    Skips(chain, nf, nf, 0);
    ExcludedAbsent(nf, "Florida");
    ExcludedAbsent(nf, "South Florida");
    ExcludedAbsent(nf, "USF");
    Skips(chain, nf, nf, 1);
    ExcludedAbsent(nf, "LSU");
    ExcludedAbsent(nf, "Louisiana Tech");
    ExcludedAbsent(nf, "LA Tech");
    Skips(chain, nf, nf, 2);
    ExcludedAbsent(nf, "Missouri");
    ExcludedAbsent(nf, "Kansas");
    Skips(chain, nf, nf, 3);
    ExcludedAbsent(nf, "Iowa State");
    ExcludedAbsent(nf, "Iowa");
    Skips(chain, nf, nf, 4);
    ExcludedAbsent(nf, "Houston");
    ExcludedAbsent(nf, "Rice");
    Skips(chain, nf, nf, 5);
    ExcludedAbsent(nf, "Navy");
    ExcludedAbsent(nf, "UAB");
    Skips(chain, nf, nf, 6);
    ExcludedAbsent(nf, "Troy");
    ExcludedAbsent(nf, "Clemson");
    Skips(chain, nf, nf, 7);
  }

  /** A school that no successful record with a non-empty `gameInfo` names is
      reported as "Not found", and a pair with such a school on both sides is
      never confirmed, whichever chain runs. */
  lemma NotFoundNeverConfirmed(chain: Chain, results: seq<ScrapeRecord>, k: nat)
    requires k < |PairsToCheck|
    requires forall i :: 0 <= i < |results| ==>
      !(Recorded(results[i]) && results[i].domain in {PairsToCheck[k].school1, PairsToCheck[k].school2})
    ensures PairReports(chain, results)[k].opp1 == "Not found" && PairReports(chain, results)[k].opp2 == "Not found"
    ensures !PairReports(chain, results)[k].confirmed
  {
    var games := SchoolGames(results);
    assert PairsToCheck[k].school1 !in games;
    assert PairsToCheck[k].school2 !in games;
    NotFoundMisses(chain, OpponentOf(games, PairsToCheck[k].school1));
  }

  /** Two records that differ at most in their officials. */
  predicate SameButOfficials(a: ScrapeRecord, b: ScrapeRecord) {
    a.(officials := b.officials) == b
  }

  /** The pair check never looks at the officials it claims are shared: runs
      that differ only in officials produce the same reports. */
  lemma {:induction false} PairReportsIgnoreOfficials(chain: Chain, a: seq<ScrapeRecord>, b: seq<ScrapeRecord>)
    requires |a| == |b|
    requires forall i :: 0 <= i < |a| ==> SameButOfficials(a[i], b[i])
    ensures PairReports(chain, a) == PairReports(chain, b)
  {
    SchoolGamesIgnoreOfficials(a, b);
  }

  lemma {:induction false} SchoolGamesIgnoreOfficials(a: seq<ScrapeRecord>, b: seq<ScrapeRecord>)
    requires |a| == |b|
    requires forall i :: 0 <= i < |a| ==> SameButOfficials(a[i], b[i])
    ensures SchoolGames(a) == SchoolGames(b)
    decreases |a|
  {
    if |a| > 0 {
      SchoolGamesIgnoreOfficials(a[..|a| - 1], b[..|b| - 1]);
    }
  }

  // ---------------------------------------------------------------------
  // The major-school sample
  // ---------------------------------------------------------------------

  const MajorSchools: seq<string> := ["georgiadogs.com", "ohiostatebuckeyes.com", "clemsontigers.com", "texaslonghorns.com"]

  /** A printed sample: the school and its referee and umpire, each shown only
      when truthy. */
  datatype Sample = Sample(school: string, referee: Option<string>, umpire: Option<string>)

  /** `officials.get(key)` when truthy. */
  function Shown(entries: seq<Entry>, key: string): (r: Option<string>)
    ensures r.Some? <==> Lookup(entries, key).Some? && IsTruthy(Lookup(entries, key).value)
    ensures r.Some? ==> Lookup(entries, key) == Some(r)
  {
    match Lookup<string, Option<string>>(entries, key)
    case Some(Some(v)) => if |v| > 0 then Some(v) else None
    case _ => None
  }

  /** A name is shown for `key` exactly when it is non-empty and the first
      entry with that key maps the key to it. */
  lemma {:induction false} ShownIff(entries: seq<Entry>, key: string, v: string)
    ensures Shown(entries, key) == Some(v) <==>
      |v| > 0 && exists j :: 0 <= j < |entries| && entries[j] == (key, Some(v)) && forall i :: 0 <= i < j ==> entries[i].0 != key
    decreases |entries|
  {
    if |entries| > 0 && entries[0].0 != key {
      ShownIff(entries[1..], key, v);
      if Shown(entries, key) == Some(v) {
        var j :| 0 <= j < |entries[1..]| && entries[1..][j] == (key, Some(v)) && forall i :: 0 <= i < j ==> entries[1..][i].0 != key;
        assert entries[j + 1] == (key, Some(v));
        assert forall i :: 0 <= i < j + 1 ==> entries[i].0 != key by {
          forall i | 0 <= i < j + 1 ensures entries[i].0 != key {
            if i > 0 { assert entries[i] == entries[1..][i - 1]; }
          }
        }
      }
      if |v| > 0 && exists j :: 0 <= j < |entries| && entries[j] == (key, Some(v)) && forall i :: 0 <= i < j ==> entries[i].0 != key {
        var j :| 0 <= j < |entries| && entries[j] == (key, Some(v)) && forall i :: 0 <= i < j ==> entries[i].0 != key;
        assert j > 0;
        assert entries[1..][j - 1] == (key, Some(v));
        assert forall i :: 0 <= i < j - 1 ==> entries[1..][i].0 != key by {
          forall i | 0 <= i < j - 1 ensures entries[1..][i].0 != key {
            assert entries[1..][i] == entries[i + 1];
          }
        }
      }
    } else if |entries| > 0 {
      if |v| > 0 && exists j :: 0 <= j < |entries| && entries[j] == (key, Some(v)) && forall i :: 0 <= i < j ==> entries[i].0 != key {
        var j :| 0 <= j < |entries| && entries[j] == (key, Some(v)) && forall i :: 0 <= i < j ==> entries[i].0 != key;
        assert j == 0;
      }
      if Shown(entries, key) == Some(v) {
        assert entries[0] == (key, Some(v));
      }
    }
  }

  /** `any(officials.values())`. */
  predicate AnyTruthy(entries: seq<Entry>) {
    exists j :: 0 <= j < |entries| && IsTruthy(entries[j].1)
  }

  /** Lines 66-73 on the first successful record of a school: nothing when the
      officials are absent, null, empty or hold no truthy name; a crash on a
      truthy value that is not a dict, which has no `values()`. */
  function SampleOf(r: ScrapeRecord): (res: Result<Option<Sample>>)
    ensures res.Fail? <==> r.officials.OtherOfficials? && r.officials.truthy
    ensures res.Ok? && res.value.Some? <==> r.officials.OfficialsDict? && AnyTruthy(r.officials.entries)
    ensures res.Ok? && res.value.Some? ==> res.value.value.school == r.domain
  {
    match r.officials
    case OfficialsDict(entries) =>
      if AnyTruthy(entries) then
        Ok(Some(Sample(r.domain, Shown(entries, "referee"), Shown(entries, "umpire"))))
      else Ok(None)
    case OtherOfficials(truthy) => if truthy then Fail(AttributeError("values")) else Ok(None)
    case _ => Ok(None)
  }

  /** One school of the sample: only its first successful record is looked at. */
  function SampleFor(results: seq<ScrapeRecord>, school: string): Result<Option<Sample>> {
    match FirstSuccess(results, school)
    case None => Ok(None)
    case Some(i) => SampleOf(results[i])
  }

  /** Lines 62-74 over `schools` in order; the first crash ends the script. */
  function Samples(results: seq<ScrapeRecord>, schools: seq<string>): (res: Result<seq<Sample>>)
    ensures res.Fail? <==> exists k :: 0 <= k < |schools| && SampleFor(results, schools[k]).Fail?
    ensures res.Ok? ==> |res.value| <= |schools|
    ensures res.Ok? ==> forall m :: 0 <= m < |res.value| ==>
      exists k :: 0 <= k < |schools| && SampleFor(results, schools[k]) == Ok(Some(res.value[m]))
    ensures res.Ok? ==> forall k :: 0 <= k < |schools| && SampleFor(results, schools[k]).Ok? && SampleFor(results, schools[k]).value.Some? ==>
      SampleFor(results, schools[k]).value.value in res.value
  {
    if |schools| == 0 then Ok([])
    else
      var rest := Samples(results, schools[1..]);
      assert forall k :: 0 <= k < |schools| - 1 ==> schools[1..][k] == schools[k + 1];
      match SampleFor(results, schools[0])
      case Fail(f) => Fail(f)
      case Ok(first) =>
        if rest.Fail? then rest
        else if first.Some? then Ok([first.value] + rest.value)
        else rest
  }

  /** The samples of a longer school list are those of its front part followed
      by those of its back part: the script prints them in list order. */
  lemma {:induction false} SamplesAppend(results: seq<ScrapeRecord>, a: seq<string>, b: seq<string>)
    ensures Samples(results, a + b).Ok? <==> Samples(results, a).Ok? && Samples(results, b).Ok?
    ensures Samples(results, a + b).Ok? ==>
      Samples(results, a + b).value == Samples(results, a).value + Samples(results, b).value
    decreases |a|
  {
    if |a| == 0 {
      assert a + b == b;
    } else {
      var ab := a + b;
      assert ab[0] == a[0];
      assert ab[1..] == a[1..] + b;
      SamplesAppend(results, a[1..], b);
      var rest := Samples(results, ab[1..]);
      assert Samples(results, ab) == match SampleFor(results, a[0])
        case Fail(f) => Fail(f)
        case Ok(first) => if rest.Fail? then rest else if first.Some? then Ok([first.value] + rest.value) else rest;
      if SampleFor(results, a[0]).Ok? && SampleFor(results, a[0]).value.Some? && rest.Ok? {
        var x := SampleFor(results, a[0]).value.value;
        assert [x] + (Samples(results, a[1..]).value + Samples(results, b).value)
          == ([x] + Samples(results, a[1..]).value) + Samples(results, b).value;
      }
    }
  }

  /** Every printed sample comes from the first successful record of its
      school, which holds some truthy name, and every name it shows is a
      truthy referee or umpire entry of that record. */
  lemma SampleShowsFirstRecord(results: seq<ScrapeRecord>, school: string)
    requires SampleFor(results, school).Ok? && SampleFor(results, school).value.Some?
    ensures var i := FirstSuccess(results, school);
      && i.Some?
      && results[i.value].officials.OfficialsDict?
      && AnyTruthy(results[i.value].officials.entries)
      && SampleFor(results, school).value.value.school == school
      && (SampleFor(results, school).value.value.referee.Some? ==>
            |SampleFor(results, school).value.value.referee.value| > 0 &&
            Lookup(results[i.value].officials.entries, "referee") == Some(SampleFor(results, school).value.value.referee))
      && (SampleFor(results, school).value.value.umpire.Some? ==>
            |SampleFor(results, school).value.value.umpire.value| > 0 &&
            Lookup(results[i.value].officials.entries, "umpire") == Some(SampleFor(results, school).value.value.umpire))
  {
  }
}
