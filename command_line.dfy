/**
 * The command-line tool: the season computation with the single-flex
 * allocator, recording for every side of every matchup its reported score,
 * its whole-team score and its suboptimality, and the two sorted tables it
 * prints.
 */
module CommandLine {
  import opened Lineup
  import opened SettingsDerivation
  import opened SingleFlex
  import opened Season
  import opened Ranking

  /** The record `{"starters": …, "whole_team": …, "suboptimality": …}` of one side of one matchup. */
  datatype WeekScores = WeekScores(starters: int, wholeTeam: int, suboptimality: int)

  /**
   * The record of one side of a matchup: its reported score, the points of
   * its whole lineup, bench included, and its optimal score less its
   * reported score. It fails where the optimal score does.
   */
  ghost function WeekRecord(settings: Settings, m: Matchup, home: bool): Result<WeekScores>
  {
    var lineup := if home then m.homeLineup else m.awayLineup;
    match FlexScore(lineup, settings)
    case Err(e) => Err(e)
    case Ok(opt) =>
      var starters := if home then m.homeScore else m.awayScore;
      Ok(WeekScores(starters, ListPoints(lineup), opt - starters))
  }

  ghost function WeekRecords(settings: Settings): (Matchup, bool) -> Result<WeekScores>
  {
    (m: Matchup, home: bool) => WeekRecord(settings, m, home)
  }

  lemma WeekRecordsApply(settings: Settings, m: Matchup)
    ensures WeekRecords(settings)(m, true) == WeekRecord(settings, m, true)
    ensures WeekRecords(settings)(m, false) == WeekRecord(settings, m, false)
  {
  }

  /** What the command-line `process_season` returns: a record per side of every regular-season matchup. */
  ghost function CommandLineSeason(league: League): Result<Log<WeekScores>>
  {
    match SeasonSettings(league)
    case Err(e) => Err(e)
    case Ok(settings) => LogFrom(map[], WeekRecords(settings), MatchupsFrom(league, 1))
  }

  /**
   * One side's dictionary in `process_season`: its optimal score first,
   * then its reported score, the sum over its whole lineup and the
   * difference.
   */
  method SideScores(matchup: Matchup, lineupSettings: Settings, home: bool) returns (r: Result<WeekScores>)
    ensures r == WeekRecord(lineupSettings, matchup, home)
  {
    var optimal := CalcOptimalScoreFlex(matchup, lineupSettings, home);
    if optimal.Err? {
      return Err(optimal.error);
    }
    var starters := if home then matchup.homeScore else matchup.awayScore;
    var wholeTeam := ListPoints(if home then matchup.homeLineup else matchup.awayLineup);
    return Ok(WeekScores(starters, wholeTeam, optimal.value - starters));
  }

  /** The inner loop of `process_season`: the home record, then the away record, of every matchup of one week. */
  method ProcessWeekScores(res: Log<WeekScores>, lineupSettings: Settings, boxScores: seq<Matchup>)
    returns (r: Result<Log<WeekScores>>)
    ensures r == LogFrom(res, WeekRecords(lineupSettings), boxScores)
  {
    ghost var entry := WeekRecords(lineupSettings);
    var acc := res;
    for j := 0 to |boxScores|
      invariant LogFrom(acc, entry, boxScores[j..]) == LogFrom(res, entry, boxScores)
    {
      var matchup := boxScores[j];
      assert boxScores[j..][1..] == boxScores[j + 1..];
      var homeScores := SideScores(matchup, lineupSettings, true);
      if homeScores.Err? {
        WeekRecordsApply(lineupSettings, matchup);
        return Err(homeScores.error);
      }
      acc := Append(acc, matchup.homeTeam, homeScores.value);
      var awayScores := SideScores(matchup, lineupSettings, false);
      WeekRecordsApply(lineupSettings, matchup);
      if awayScores.Err? {
        return Err(awayScores.error);
      }
      acc := Append(acc, matchup.awayTeam, awayScores.value);
    }
    assert boxScores[|boxScores|..] == [];
    return Ok(acc);
  }

  /** `process_season` of the command-line tool: settings from week 1, then every regular-season week. */
  method ProcessSeasonScores(league: League) returns (r: Result<Log<WeekScores>>)
    ensures r == CommandLineSeason(league)
  {
    var first := league.boxScores(1);
    if first == [] {
      return Err(NoMatchup);
    }
    var lineupSettings := GetLineupSettings(first[0].homeLineup);
    ghost var entry := WeekRecords(lineupSettings);
    var res: Log<WeekScores> := map[];
    for i := 1 to league.regSeasonCount + 1
      invariant LogFrom(res, entry, MatchupsFrom(league, i)) == CommandLineSeason(league)
    {
      var boxScores := league.boxScores(i);
      LogFromConcat(res, entry, boxScores, MatchupsFrom(league, i + 1));
      var week := ProcessWeekScores(res, lineupSettings, boxScores);
      if week.Err? {
        return week;
      }
      res := week.value;
    }
    return Ok(res);
  }

  /**
   * A side's record exists unless a player with a non-negative score has a
   * primary position the settings do not know; when it exists, its starters
   * plus its suboptimality is a non-negative optimal score and its
   * whole-team score is the sum over the side's lineup.
   */
  lemma WeekRecordSound(settings: Settings, m: Matchup, home: bool)
    requires PositiveSettings(settings)
    ensures var lineup := if home then m.homeLineup else m.awayLineup;
      WeekRecord(settings, m, home).Err? <==>
        exists i :: 0 <= i < |lineup| && lineup[i].points >= 0 && lineup[i].position !in settings
    ensures var lineup := if home then m.homeLineup else m.awayLineup;
      var r := WeekRecord(settings, m, home);
      r.Ok? ==>
        && r.value.starters == (if home then m.homeScore else m.awayScore)
        && r.value.wholeTeam == ListPoints(lineup)
        && FlexScore(lineup, settings) == Ok(r.value.starters + r.value.suboptimality)
        && r.value.starters + r.value.suboptimality >= 0
  {
    var lineup := if home then m.homeLineup else m.awayLineup;
    var empty: Slots := map[];
    assert Fits(empty, settings);
    FoldFlexFailsIff(empty, settings, lineup, Flex);
    FlexScoreSound(lineup, settings);
  }

  /**
   * A command-line season, when it exists, holds for each team exactly its
   * own records in week order, and the teams recorded are exactly the teams
   * that played; it exists exactly when every side can be scored.
   */
  lemma CommandLineSeasonEntries(league: League)
    requires SeasonSettings(league).Ok?
    ensures var settings := SeasonSettings(league).value;
      CommandLineSeason(league).Ok? <==> Scored(WeekRecords(settings), MatchupsFrom(league, 1))
    ensures var settings := SeasonSettings(league).value;
      CommandLineSeason(league).Ok? ==>
        && CommandLineSeason(league).value.Keys == Teams(MatchupsFrom(league, 1))
        && (forall t :: Entries(CommandLineSeason(league).value, t)
                          == TeamLog(WeekRecords(settings), MatchupsFrom(league, 1), t))
  {
    var settings := SeasonSettings(league).value;
    var empty: Log<WeekScores> := map[];
    LogFromOk(empty, WeekRecords(settings), MatchupsFrom(league, 1));
    if Scored(WeekRecords(settings), MatchupsFrom(league, 1)) {
      LogFromKeys(empty, WeekRecords(settings), MatchupsFrom(league, 1));
      forall t ensures Entries(CommandLineSeason(league).value, t)
                         == TeamLog(WeekRecords(settings), MatchupsFrom(league, 1), t) {
        LogFromEntries(empty, WeekRecords(settings), MatchupsFrom(league, 1), t);
      }
    }
  }

  /** Every record of a team has a non-negative optimal score: starters plus suboptimality. */
  lemma {:induction false} TeamRecordsOptimalNonNegative(settings: Settings, ms: seq<Matchup>, t: TeamId)
    requires Scored(WeekRecords(settings), ms)
    ensures forall i :: 0 <= i < |TeamLog(WeekRecords(settings), ms, t)| ==>
      TeamLog(WeekRecords(settings), ms, t)[i].starters + TeamLog(WeekRecords(settings), ms, t)[i].suboptimality >= 0
    decreases |ms|
  {
    if ms != [] {
      var m := ms[0];
      FlexScoreSound(m.homeLineup, settings);
      FlexScoreSound(m.awayLineup, settings);
      ScoredCons(WeekRecords(settings), ms);
      TeamRecordsOptimalNonNegative(settings, ms[1..], t);
    }
  }

  // ---------------------------------------------------------------------
  // The printed tables

  /** Sum of a team's weekly suboptimality. */
  function SuboptimalitySum(scores: seq<WeekScores>): int
    decreases |scores|
  {
    if scores == [] then 0 else scores[0].suboptimality + SuboptimalitySum(scores[1..])
  }

  /** Sum of a team's weekly whole-team scores. */
  function WholeTeamSum(scores: seq<WeekScores>): int
    decreases |scores|
  {
    if scores == [] then 0 else scores[0].wholeTeam + WholeTeamSum(scores[1..])
  }

  /** Sum of a team's weekly reported scores. */
  function StartersSum(scores: seq<WeekScores>): int
    decreases |scores|
  {
    if scores == [] then 0 else scores[0].starters + StartersSum(scores[1..])
  }

  /** Sum of a team's weekly optimal scores, each its starters plus its suboptimality. */
  function OptimalSum(scores: seq<WeekScores>): int
    decreases |scores|
  {
    if scores == [] then 0 else (scores[0].starters + scores[0].suboptimality) + OptimalSum(scores[1..])
  }

  /** The season's suboptimality is the season's optimal total less the season's reported total. */
  lemma {:induction false} SuboptimalitySumIsShortfall(scores: seq<WeekScores>)
    ensures SuboptimalitySum(scores) == OptimalSum(scores) - StartersSum(scores)
    decreases |scores|
  {
    if scores != [] {
      SuboptimalitySumIsShortfall(scores[1..]);
    }
  }

  /** `get_sorted_suboptimals`: every team once with its season suboptimality, ascending by (total, team). */
  ghost function GetSortedSuboptimals(results: Log<WeekScores>): (r: seq<Standing>)
    ensures |r| == |results|
    ensures forall i :: 0 <= i < |r| ==> r[i].0 in results && r[i].1 == SuboptimalitySum(results[r[i].0])
    ensures forall t :: t in results ==> (t, SuboptimalitySum(results[t])) in r
    ensures Ordered(r, false)
  {
    var totals := map t | t in results :: SuboptimalitySum(results[t]);
    assert totals.Keys == results.Keys;
    Rank(totals, false)
  }

  /** `get_sorted_team_scores`: every team once with its season whole-team score, descending by (total, team). */
  ghost function GetSortedTeamScores(results: Log<WeekScores>): (r: seq<Standing>)
    ensures |r| == |results|
    ensures forall i :: 0 <= i < |r| ==> r[i].0 in results && r[i].1 == WholeTeamSum(results[r[i].0])
    ensures forall t :: t in results ==> (t, WholeTeamSum(results[t])) in r
    ensures Ordered(r, true)
  {
    var totals := map t | t in results :: WholeTeamSum(results[t]);
    assert totals.Keys == results.Keys;
    Rank(totals, true)
  }

  /**
   * The first line of the suboptimality table names the team that left the
   * fewest points on the bench, the lower team id on a tie.
   */
  lemma SortedSuboptimalsHead(results: Log<WeekScores>)
    requires results != map[]
    ensures var r := GetSortedSuboptimals(results);
      r != [] && r[0].0 in results && r[0].1 == SuboptimalitySum(results[r[0].0]) &&
      forall t :: t in results && t != r[0].0 ==>
        SuboptimalitySum(results[r[0].0]) < SuboptimalitySum(results[t])
        || (SuboptimalitySum(results[r[0].0]) == SuboptimalitySum(results[t]) && r[0].0 < t)
  {
    var r := GetSortedSuboptimals(results);
    var k :| k in results;
    assert (k, SuboptimalitySum(results[k])) in r;
    forall t | t in results && t != r[0].0
      ensures SuboptimalitySum(results[r[0].0]) < SuboptimalitySum(results[t])
              || (SuboptimalitySum(results[r[0].0]) == SuboptimalitySum(results[t]) && r[0].0 < t)
    {
      var j :| 0 <= j < |r| && r[j] == (t, SuboptimalitySum(results[t]));
      assert Before(r[0], r[j], false);
    }
  }

  /**
   * The first line of the team-score table names the team whose whole
   * roster scored most, the higher team id on a tie.
   */
  lemma SortedTeamScoresHead(results: Log<WeekScores>)
    requires results != map[]
    ensures var r := GetSortedTeamScores(results);
      r != [] && r[0].0 in results && r[0].1 == WholeTeamSum(results[r[0].0]) &&
      forall t :: t in results && t != r[0].0 ==>
        WholeTeamSum(results[r[0].0]) > WholeTeamSum(results[t])
        || (WholeTeamSum(results[r[0].0]) == WholeTeamSum(results[t]) && r[0].0 > t)
  {
    var r := GetSortedTeamScores(results);
    var k :| k in results;
    assert (k, WholeTeamSum(results[k])) in r;
    forall t | t in results && t != r[0].0
      ensures WholeTeamSum(results[r[0].0]) > WholeTeamSum(results[t])
              || (WholeTeamSum(results[r[0].0]) == WholeTeamSum(results[t]) && r[0].0 > t)
    {
      var j :| 0 <= j < |r| && r[j] == (t, WholeTeamSum(results[t]));
      assert Before(r[0], r[j], true);
    }
  }

  /**
   * For a season the tool can compute, the season's optimal total of every
   * team, its reported total plus its suboptimality, is at least 0.
   */
  lemma SeasonOptimalNonNegative(league: League, t: TeamId)
    requires SeasonSettings(league).Ok? && CommandLineSeason(league).Ok?
    ensures OptimalSum(Entries(CommandLineSeason(league).value, t)) >= 0
    ensures StartersSum(Entries(CommandLineSeason(league).value, t))
            + SuboptimalitySum(Entries(CommandLineSeason(league).value, t)) >= 0
  {
    var settings := SeasonSettings(league).value;
    var ms := MatchupsFrom(league, 1);
    CommandLineSeasonEntries(league);
    TeamRecordsOptimalNonNegative(settings, ms, t);
    var scores := Entries(CommandLineSeason(league).value, t);
    assert scores == TeamLog(WeekRecords(settings), ms, t);
    OptimalSumNonNegative(scores);
    SuboptimalitySumIsShortfall(scores);
  }

  lemma {:induction false} OptimalSumNonNegative(scores: seq<WeekScores>)
    requires forall i :: 0 <= i < |scores| ==> scores[i].starters + scores[i].suboptimality >= 0
    ensures OptimalSum(scores) >= 0
    decreases |scores|
  {
    if scores != [] {
      assert forall i :: 0 <= i < |scores[1..]| ==> scores[1..][i] == scores[i + 1];
      OptimalSumNonNegative(scores[1..]);
    }
  }

  // ---------------------------------------------------------------------
  // No lower bound by the reported score

  /** The settings read off a lineup that started one player at quarterback and one at `OP`. */
  lemma SuperflexSettings(qb1: Player, qb2: Player)
    requires qb1.slotPosition == "QB" && qb2.slotPosition == "OP"
    ensures LineupSettings([qb1, qb2]) == map["QB" := 1, "OP" := 1]
  {
    var lineup := [qb1, qb2];
    var settings := LineupSettings(lineup);
    assert lineup[..1] == [qb1] && [qb1][..0] == [];
    forall s ensures Cap(settings, s) == (if s == "QB" || s == "OP" then 1 else 0) {
      if s != Bench {
        assert CountSlot(lineup, s) == CountSlot([qb1], s) + (if qb2.slotPosition == s then 1 else 0);
      }
    }
    assert settings.Keys == {"QB", "OP"} by {
      assert Cap(settings, "QB") == 1 && Cap(settings, "OP") == 1;
    }
  }

  /** With one quarterback slot and one `OP` slot, the lower quarterback offered second is dropped. */
  lemma SuperflexFold(qb1: Player, qb2: Player)
    requires qb1 == Player("QB", "QB", 20, ["QB", "OP"]) && qb2 == Player("QB", "OP", 15, ["QB", "OP"])
    ensures FoldFlexFrom(map[], map["QB" := 1, "OP" := 1], [qb1, qb2], Flex) == Ok(map["QB" := [qb1]])
  {
    var settings: Settings := map["QB" := 1, "OP" := 1];
    var lineup := [qb1, qb2];
    var none: seq<Player> := [];
    var empty: Slots := map[];
    var a1: Slots := map["QB" := [qb1]];
    assert AllocateFlex(empty, settings, qb1, Flex) == Ok(a1) by {
      assert none + [qb1] == [qb1];
      assert empty["QB" := [qb1]] == a1;
    }
    assert AllocateFlex(a1, settings, qb2, Flex) == Ok(a1) by {
      QuarterbackNotFlex();
      assert FirstMin(a1["QB"]) == 0;
    }
    assert lineup[0] == qb1 && lineup[1..] == [qb2];
    assert [qb2][0] == qb2 && [qb2][1..] == [];
    assert FoldFlexFrom(a1, settings, [qb2], Flex) == FoldFlexFrom(a1, settings, [], Flex);
  }

  /**
   * The single-flex score can fall below what the starters scored. A
   * lineup started a 20-point quarterback at quarterback and a 15-point
   * quarterback at the superflex slot `OP`; its settings are one of each.
   * Offered second, the 15 loses to the 20 at quarterback, and since `"QB"`
   * does not occur in the flex code it is dropped, never tried at `OP`: the
   * optimal score is 20 against a reported 35, a suboptimality of -15.
   */
  lemma OptimalBelowStarters(qb1: Player, qb2: Player, m: Matchup)
    requires qb1 == Player("QB", "QB", 20, ["QB", "OP"]) && qb2 == Player("QB", "OP", 15, ["QB", "OP"])
    requires m == Matchup(0, 1, 35, 0, [qb1, qb2], [])
    ensures LineupSettings(m.homeLineup) == map["QB" := 1, "OP" := 1]
    ensures WeekRecord(LineupSettings(m.homeLineup), m, true) == Ok(WeekScores(35, 35, -15))
  {
    SuperflexSettings(qb1, qb2);
    SuperflexFold(qb1, qb2);
    var a1: Slots := map["QB" := [qb1]];
    SumOverRemove(a1, ListPoints, "QB");
    assert a1 - {"QB"} == map[];
    assert ListPoints([qb1]) == 20 by {
      assert [qb1][..0] == [];
    }
    assert FlexScore([qb1, qb2], map["QB" := 1, "OP" := 1]) == Ok(20);
    assert ListPoints([qb1, qb2]) == 35 by {
      assert [qb1, qb2][..1] == [qb1];
    }
  }
}
