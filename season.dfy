/**
 * Season aggregation: every matchup of every regular-season week appends
 * one record for the home team and one for the away team to a per-team
 * log, computed with lineup settings read once from week 1.
 */
module Season {
  import opened Lineup
  import opened SettingsDerivation
  import opened Processor

  /** Team to the records of its games, in the order they were appended. */
  type Log<E> = map<TeamId, seq<E>>

  /** A team's records; a team never appended to has none. */
  function Entries<E>(res: Log<E>, t: TeamId): seq<E>
  {
    if t in res then res[t] else []
  }

  /** `res[team].append(e)` on a dictionary of lists that starts every key empty. */
  function Append<E>(res: Log<E>, t: TeamId, e: E): (r: Log<E>)
    ensures Entries(r, t) == Entries(res, t) + [e]
    ensures forall u :: u != t ==> Entries(r, u) == Entries(res, u)
    ensures r.Keys == res.Keys + {t}
  {
    res[t := Entries(res, t) + [e]]
  }

  /**
   * The appends of a run of matchups: home first, then away. `entry`
   * computes one side's record, and fails where `calc_optimal_score`
   * raises.
   */
  ghost function LogFrom<E>(res: Log<E>, entry: (Matchup, bool) -> Result<E>, ms: seq<Matchup>): Result<Log<E>>
    decreases |ms|
  {
    if ms == [] then Ok(res)
    else
      match entry(ms[0], true)
      case Err(e) => Err(e)
      case Ok(h) =>
        match entry(ms[0], false)
        case Err(e) => Err(e)
        case Ok(w) => LogFrom(Append(Append(res, ms[0].homeTeam, h), ms[0].awayTeam, w), entry, ms[1..])
  }

  /** Both sides of every matchup have a record. */
  ghost predicate Scored<E>(entry: (Matchup, bool) -> Result<E>, ms: seq<Matchup>)
  {
    forall i :: 0 <= i < |ms| ==> entry(ms[i], true).Ok? && entry(ms[i], false).Ok?
  }

  /** One team's view of a run of matchups: its records, game by game. */
  ghost function TeamLog<E>(entry: (Matchup, bool) -> Result<E>, ms: seq<Matchup>, t: TeamId): seq<E>
    requires Scored(entry, ms)
    decreases |ms|
  {
    if ms == [] then []
    else
      (if ms[0].homeTeam == t then [entry(ms[0], true).value] else [])
      + (if ms[0].awayTeam == t then [entry(ms[0], false).value] else [])
      + TeamLog(entry, ms[1..], t)
  }

  /** The teams that play in a run of matchups. */
  ghost function Teams(ms: seq<Matchup>): set<TeamId>
  {
    (set i | 0 <= i < |ms| :: ms[i].homeTeam) + (set i | 0 <= i < |ms| :: ms[i].awayTeam)
  }

  /** Every side of a run of matchups is scored exactly when its first matchup and the rest are. */
  lemma ScoredCons<E>(entry: (Matchup, bool) -> Result<E>, ms: seq<Matchup>)
    requires ms != []
    ensures Scored(entry, ms) <==> entry(ms[0], true).Ok? && entry(ms[0], false).Ok? && Scored(entry, ms[1..])
  {
    if entry(ms[0], true).Ok? && entry(ms[0], false).Ok? && Scored(entry, ms[1..]) {
      forall i | 0 <= i < |ms| ensures entry(ms[i], true).Ok? && entry(ms[i], false).Ok? {
        if i > 0 { assert ms[i] == ms[1..][i - 1]; }
      }
    }
    if Scored(entry, ms) {
      forall i | 0 <= i < |ms[1..]| ensures entry(ms[1..][i], true).Ok? && entry(ms[1..][i], false).Ok? {
        assert ms[1..][i] == ms[i + 1];
      }
    }
  }

  lemma TeamsCons(ms: seq<Matchup>)
    requires ms != []
    ensures Teams(ms) == {ms[0].homeTeam, ms[0].awayTeam} + Teams(ms[1..])
  {
    forall u | u in Teams(ms) ensures u in {ms[0].homeTeam, ms[0].awayTeam} + Teams(ms[1..]) {
      var i :| 0 <= i < |ms| && (ms[i].homeTeam == u || ms[i].awayTeam == u);
      if i > 0 {
        assert ms[1..][i - 1] == ms[i];
      }
    }
    forall u | u in Teams(ms[1..]) ensures u in Teams(ms) {
      var i :| 0 <= i < |ms[1..]| && (ms[1..][i].homeTeam == u || ms[1..][i].awayTeam == u);
      assert ms[i + 1] == ms[1..][i];
    }
  }

  /** Logging a run of matchups succeeds exactly when every side can be scored. */
  lemma {:induction false} LogFromOk<E>(res: Log<E>, entry: (Matchup, bool) -> Result<E>, ms: seq<Matchup>)
    ensures LogFrom(res, entry, ms).Ok? <==> Scored(entry, ms)
    decreases |ms|
  {
    if ms != [] {
      var m := ms[0];
      ScoredCons(entry, ms);
      if entry(m, true).Ok? && entry(m, false).Ok? {
        LogFromOk(Append(Append(res, m.homeTeam, entry(m, true).value), m.awayTeam, entry(m, false).value), entry, ms[1..]);
      }
    }
  }

  lemma Regroup<E>(a: seq<E>, b: seq<E>, c: seq<E>, d: seq<E>)
    ensures (a + b + c) + d == a + (b + c + d)
  {
  }

  /**
   * When every side is scored, each team's log is extended by exactly its
   * own records in matchup order.
   */
  lemma {:induction false} LogFromEntries<E>(res: Log<E>, entry: (Matchup, bool) -> Result<E>, ms: seq<Matchup>,
                                             t: TeamId)
    requires Scored(entry, ms)
    ensures LogFrom(res, entry, ms).Ok?
    ensures Entries(LogFrom(res, entry, ms).value, t) == Entries(res, t) + TeamLog(entry, ms, t)
    decreases |ms|
  {
    LogFromOk(res, entry, ms);
    if ms != [] {
      var m := ms[0];
      ScoredCons(entry, ms);
      var res1 := Append(Append(res, m.homeTeam, entry(m, true).value), m.awayTeam, entry(m, false).value);
      assert LogFrom(res, entry, ms) == LogFrom(res1, entry, ms[1..]);
      LogFromEntries(res1, entry, ms[1..], t);
      var h := if m.homeTeam == t then [entry(m, true).value] else [];
      var w := if m.awayTeam == t then [entry(m, false).value] else [];
      assert TeamLog(entry, ms, t) == h + w + TeamLog(entry, ms[1..], t);
      assert Entries(res1, t) == Entries(res, t) + h + w;
      calc {
        Entries(LogFrom(res, entry, ms).value, t);
        Entries(res1, t) + TeamLog(entry, ms[1..], t);
        (Entries(res, t) + h + w) + TeamLog(entry, ms[1..], t);
        { Regroup(Entries(res, t), h, w, TeamLog(entry, ms[1..], t)); }
        Entries(res, t) + TeamLog(entry, ms, t);
      }
    }
  }

  /** When every side is scored, the logged teams are those logged before plus those that played. */
  lemma {:induction false} LogFromKeys<E>(res: Log<E>, entry: (Matchup, bool) -> Result<E>, ms: seq<Matchup>)
    requires Scored(entry, ms)
    ensures LogFrom(res, entry, ms).Ok?
    ensures LogFrom(res, entry, ms).value.Keys == res.Keys + Teams(ms)
    decreases |ms|
  {
    LogFromOk(res, entry, ms);
    if ms != [] {
      var m := ms[0];
      ScoredCons(entry, ms);
      TeamsCons(ms);
      var res1 := Append(Append(res, m.homeTeam, entry(m, true).value), m.awayTeam, entry(m, false).value);
      assert LogFrom(res, entry, ms) == LogFrom(res1, entry, ms[1..]);
      LogFromKeys(res1, entry, ms[1..]);
    }
  }

  /** One team's records over consecutive runs of matchups come run by run, in order. */
  lemma {:induction false} TeamLogAppend<E>(entry: (Matchup, bool) -> Result<E>, ms1: seq<Matchup>, ms2: seq<Matchup>,
                                            t: TeamId)
    requires Scored(entry, ms1 + ms2)
    ensures Scored(entry, ms1) && Scored(entry, ms2)
    ensures TeamLog(entry, ms1 + ms2, t) == TeamLog(entry, ms1, t) + TeamLog(entry, ms2, t)
    decreases |ms1|
  {
    forall i | 0 <= i < |ms1| ensures entry(ms1[i], true).Ok? && entry(ms1[i], false).Ok? {
      assert (ms1 + ms2)[i] == ms1[i];
    }
    forall i | 0 <= i < |ms2| ensures entry(ms2[i], true).Ok? && entry(ms2[i], false).Ok? {
      assert (ms1 + ms2)[|ms1| + i] == ms2[i];
    }
    if ms1 == [] {
      assert ms1 + ms2 == ms2;
    } else {
      assert (ms1 + ms2)[1..] == ms1[1..] + ms2;
      TeamLogAppend(entry, ms1[1..], ms2, t);
    }
  }

  // ---------------------------------------------------------------------
  // The season of the web service

  /**
   * A league as the season computation reads it: the number of
   * regular-season weeks and, for each week number, that week's matchups.
   */
  datatype League = League(leagueId: nat, year: nat, regSeasonCount: nat, boxScores: nat -> seq<Matchup>)

  /** The matchups of weeks `i` to the last regular-season week, week by week. */
  function MatchupsFrom(league: League, i: nat): seq<Matchup>
    decreases league.regSeasonCount + 1 - i
  {
    if i > league.regSeasonCount then [] else league.boxScores(i) + MatchupsFrom(league, i + 1)
  }

  /** The record of one side of a matchup: its reported score and its optimal score. */
  ghost function ScorePair(settings: Settings, m: Matchup, home: bool): Result<(int, int)>
  {
    match OptimalScore(if home then m.homeLineup else m.awayLineup, settings)
    case Err(e) => Err(e)
    case Ok(opt) => Ok((if home then m.homeScore else m.awayScore, opt))
  }

  ghost function ScorePairs(settings: Settings): (Matchup, bool) -> Result<(int, int)>
  {
    (m: Matchup, home: bool) => ScorePair(settings, m, home)
  }

  /** The settings of a season: read off week 1's first matchup, home side. */
  function SeasonSettings(league: League): Result<Settings>
  {
    if league.boxScores(1) == [] then Err(NoMatchup)
    else Ok(LineupSettings(league.boxScores(1)[0].homeLineup))
  }

  /**
   * What `process_season` returns: the log of (score, optimal score) pairs
   * of every regular-season matchup, every side scored with the settings
   * of week 1.
   */
  ghost function SeasonLog(league: League): Result<Log<(int, int)>>
  {
    match SeasonSettings(league)
    case Err(e) => Err(e)
    case Ok(settings) => LogFrom(map[], ScorePairs(settings), MatchupsFrom(league, 1))
  }

  /**
   * The inner loop of `process_season`: appends the home and the away pair
   * of every matchup of one week, in order.
   */
  method ProcessWeek(res: Log<(int, int)>, lineupSettings: Settings, boxScores: seq<Matchup>)
    returns (r: Result<Log<(int, int)>>)
    ensures r == LogFrom(res, ScorePairs(lineupSettings), boxScores)
  {
    ghost var entry := ScorePairs(lineupSettings);
    var acc := res;
    for j := 0 to |boxScores|
      invariant LogFrom(acc, entry, boxScores[j..]) == LogFrom(res, entry, boxScores)
    {
      var matchup := boxScores[j];
      assert boxScores[j..][1..] == boxScores[j + 1..];
      var home := CalcOptimalScore(matchup, lineupSettings, true);
      if home.Err? {
        return Err(home.error);
      }
      acc := Append(acc, matchup.homeTeam, (matchup.homeScore, home.value));
      var away := CalcOptimalScore(matchup, lineupSettings, false);
      if away.Err? {
        return Err(away.error);
      }
      acc := Append(acc, matchup.awayTeam, (matchup.awayScore, away.value));
    }
    assert boxScores[|boxScores|..] == [];
    return Ok(acc);
  }

  /** Logging two runs of matchups one after the other logs their concatenation. */
  lemma {:induction false} LogFromConcat<E>(res: Log<E>, entry: (Matchup, bool) -> Result<E>, ms1: seq<Matchup>,
                                            ms2: seq<Matchup>)
    ensures LogFrom(res, entry, ms1 + ms2)
            == match LogFrom(res, entry, ms1)
               case Err(e) => Err(e)
               case Ok(mid) => LogFrom(mid, entry, ms2)
    decreases |ms1|
  {
    if ms1 == [] {
      assert ms1 + ms2 == ms2;
    } else {
      assert (ms1 + ms2)[0] == ms1[0];
      assert (ms1 + ms2)[1..] == ms1[1..] + ms2;
      var m := ms1[0];
      if entry(m, true).Ok? && entry(m, false).Ok? {
        LogFromConcat(Append(Append(res, m.homeTeam, entry(m, true).value), m.awayTeam, entry(m, false).value),
                      entry, ms1[1..], ms2);
      }
    }
  }

  /**
   * `process_season` of the web service: settings from week 1, then for
   * every regular-season week, every matchup of it.
   */
  method ProcessSeason(league: League) returns (r: Result<Log<(int, int)>>)
    ensures r == SeasonLog(league)
  {
    var first := league.boxScores(1);
    if first == [] {
      return Err(NoMatchup);
    }
    var lineupSettings := GetLineupSettings(first[0].homeLineup);
    ghost var entry := ScorePairs(lineupSettings);
    var res: Log<(int, int)> := map[];
    for i := 1 to league.regSeasonCount + 1
      invariant LogFrom(res, entry, MatchupsFrom(league, i)) == SeasonLog(league)
    {
      var boxScores := league.boxScores(i);
      LogFromConcat(res, entry, boxScores, MatchupsFrom(league, i + 1));
      var week := ProcessWeek(res, lineupSettings, boxScores);
      if week.Err? {
        return week;
      }
      res := week.value;
    }
    return Ok(res);
  }

  /**
   * A season log, when it exists, holds for each team exactly its own
   * (score, optimal score) pairs in week order, one per side it played,
   * every optimal score at least 0; and the logged teams are exactly the
   * teams that played.
   */
  lemma SeasonLogEntries(league: League)
    requires SeasonSettings(league).Ok?
    ensures var settings := SeasonSettings(league).value;
      SeasonLog(league).Ok? <==> Scored(ScorePairs(settings), MatchupsFrom(league, 1))
    ensures var settings := SeasonSettings(league).value;
      SeasonLog(league).Ok? ==>
        && SeasonLog(league).value.Keys == Teams(MatchupsFrom(league, 1))
        && (forall t :: Entries(SeasonLog(league).value, t) == TeamLog(ScorePairs(settings), MatchupsFrom(league, 1), t))
  {
    var settings := SeasonSettings(league).value;
    var empty: Log<(int, int)> := map[];
    LogFromOk(empty, ScorePairs(settings), MatchupsFrom(league, 1));
    if Scored(ScorePairs(settings), MatchupsFrom(league, 1)) {
      LogFromKeys(empty, ScorePairs(settings), MatchupsFrom(league, 1));
      forall t ensures Entries(SeasonLog(league).value, t) == TeamLog(ScorePairs(settings), MatchupsFrom(league, 1), t) {
        LogFromEntries(empty, ScorePairs(settings), MatchupsFrom(league, 1), t);
      }
    }
  }

  /** Every optimal score a team's records hold is at least 0. */
  lemma {:induction false} TeamLogOptimalNonNegative(settings: Settings, ms: seq<Matchup>, t: TeamId)
    requires Scored(ScorePairs(settings), ms)
    ensures forall i :: 0 <= i < |TeamLog(ScorePairs(settings), ms, t)| ==> TeamLog(ScorePairs(settings), ms, t)[i].1 >= 0
    decreases |ms|
  {
    if ms != [] {
      var m := ms[0];
      OptimalScoreSound(m.homeLineup, settings);
      OptimalScoreSound(m.awayLineup, settings);
      assert Scored(ScorePairs(settings), ms[1..]) by {
        forall i | 0 <= i < |ms[1..]|
          ensures ScorePairs(settings)(ms[1..][i], true).Ok? && ScorePairs(settings)(ms[1..][i], false).Ok?
        {
          assert ms[1..][i] == ms[i + 1];
        }
      }
      TeamLogOptimalNonNegative(settings, ms[1..], t);
    }
  }
}
