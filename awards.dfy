/**
 * The two rankings of the web service and the awards built from their
 * heads: the coach of the year leaves the fewest points on the bench, the
 * general manager of the year has the highest optimal total.
 */
module Awards {
  import opened Lineup
  import opened Season
  import opened Ranking

  /** Sum of `optimal - actual` over a team's (actual, optimal) pairs. */
  function SuboptimalTotal(scores: seq<(int, int)>): int
    decreases |scores|
  {
    if scores == [] then 0 else (scores[0].1 - scores[0].0) + SuboptimalTotal(scores[1..])
  }

  /** Sum of the optimal scores of a team's pairs. */
  function OptimalTotal(scores: seq<(int, int)>): int
    decreases |scores|
  {
    if scores == [] then 0 else scores[0].1 + OptimalTotal(scores[1..])
  }

  /** Sum of the reported scores of a team's pairs. */
  function ActualTotal(scores: seq<(int, int)>): int
    decreases |scores|
  {
    if scores == [] then 0 else scores[0].0 + ActualTotal(scores[1..])
  }

  /** The points a team left on the bench are its optimal total less its reported total. */
  lemma {:induction false} SuboptimalIsShortfall(scores: seq<(int, int)>)
    ensures SuboptimalTotal(scores) == OptimalTotal(scores) - ActualTotal(scores)
    decreases |scores|
  {
    if scores != [] {
      SuboptimalIsShortfall(scores[1..]);
    }
  }

  /** With every optimal score at least 0, so is the optimal total. */
  lemma {:induction false} OptimalTotalNonNegative(scores: seq<(int, int)>)
    requires forall i :: 0 <= i < |scores| ==> scores[i].1 >= 0
    ensures OptimalTotal(scores) >= 0
    decreases |scores|
  {
    if scores != [] {
      assert forall i :: 0 <= i < |scores[1..]| ==> scores[1..][i] == scores[i + 1];
      OptimalTotalNonNegative(scores[1..]);
    }
  }

  /** `get_suboptimality`: every team once, with its suboptimality, ascending by (total, team). */
  ghost function GetSuboptimality(results: Log<(int, int)>): (r: seq<Standing>)
    ensures |r| == |results|
    ensures forall i :: 0 <= i < |r| ==> r[i].0 in results && r[i].1 == SuboptimalTotal(results[r[i].0])
    ensures forall t :: t in results ==> (t, SuboptimalTotal(results[t])) in r
    ensures Ordered(r, false)
  {
    var totals := map t | t in results :: SuboptimalTotal(results[t]);
    assert totals.Keys == results.Keys;
    Rank(totals, false)
  }

  /** `get_optimal_points_for`: every team once, with its optimal total, descending by (total, team). */
  ghost function GetOptimalPointsFor(results: Log<(int, int)>): (r: seq<Standing>)
    ensures |r| == |results|
    ensures forall i :: 0 <= i < |r| ==> r[i].0 in results && r[i].1 == OptimalTotal(results[r[i].0])
    ensures forall t :: t in results ==> (t, OptimalTotal(results[t])) in r
    ensures Ordered(r, true)
  {
    var totals := map t | t in results :: OptimalTotal(results[t]);
    assert totals.Keys == results.Keys;
    Rank(totals, true)
  }

  // ---------------------------------------------------------------------
  // The awards dictionary

  /** What the awards read off a team object. */
  datatype TeamInfo = TeamInfo(owner: string, teamName: string)

  datatype AwardsDict = AwardsDict(
    coty: string,
    cotyTeam: string,
    cotySuboptimal: int,
    gmoty: string,
    gmotyTeam: string,
    gmotyOptimal: int,
    leagueId: nat,
    year: nat,
    url: string)

  function DigitChar(d: nat): (c: char)
    requires d < 10
    ensures '0' <= c <= '9' && c as int - '0' as int == d
  {
    "0123456789"[d]
  }

  predicate IsDigits(s: string)
  {
    forall i :: 0 <= i < |s| ==> '0' <= s[i] <= '9'
  }

  /** Python's `str(n)` for a natural number: its decimal digits. */
  function NatToString(n: nat): (s: string)
    ensures s != [] && IsDigits(s)
    decreases n
  {
    if n < 10 then [DigitChar(n)] else NatToString(n / 10) + [DigitChar(n % 10)]
  }

  /** The number a string of decimal digits denotes. */
  function DigitsValue(s: string): nat
    requires IsDigits(s)
    decreases |s|
  {
    if s == [] then 0
    else DigitsValue(s[..|s| - 1]) * 10 + (s[|s| - 1] as int - '0' as int)
  }

  lemma {:induction false} NatToStringRoundTrip(n: nat)
    ensures DigitsValue(NatToString(n)) == n
    decreases n
  {
    if n >= 10 {
      NatToStringRoundTrip(n / 10);
      var s := NatToString(n);
      assert s[..|s| - 1] == NatToString(n / 10);
    }
  }

  /** The awards page of a league season: `/api/v1/<league id>/<year>/awards/`. */
  function AwardsUrl(leagueId: nat, year: nat): string
  {
    "/api/v1/" + NatToString(leagueId) + "/" + NatToString(year) + "/awards/"
  }

  /** In `a + "/" + b`, with `a` made of digits, the first slash is at index `|a|`. */
  lemma SlashAt(a: string, b: string)
    requires IsDigits(a)
    ensures (a + "/" + b)[|a|] == '/'
    ensures forall i :: 0 <= i < |a| ==> (a + "/" + b)[i] != '/'
  {
    forall i | 0 <= i < |a| ensures (a + "/" + b)[i] != '/' {
      assert (a + "/" + b)[i] == a[i];
    }
  }

  /** A digit string followed by a slash splits back into its two parts. */
  lemma SlashSplit(a1: string, b1: string, a2: string, b2: string)
    requires IsDigits(a1) && IsDigits(a2) && a1 + "/" + b1 == a2 + "/" + b2
    ensures a1 == a2 && b1 == b2
  {
    SlashAt(a1, b1);
    SlashAt(a2, b2);
    assert |a1| == |a2|;
    assert a1 == (a1 + "/" + b1)[..|a1|];
    assert a2 == (a2 + "/" + b2)[..|a2|];
    assert b1 == (a1 + "/" + b1)[|a1| + 1..];
    assert b2 == (a2 + "/" + b2)[|a2| + 1..];
  }

  lemma PrefixCancel(p: string, x: string, y: string)
    requires p + x == p + y
    ensures x == y
  {
    assert x == (p + x)[|p|..];
    assert y == (p + y)[|p|..];
  }

  lemma UrlShape(a: string, b: string)
    ensures "/api/v1/" + a + "/" + b + "/awards/" == "/api/v1/" + (a + "/" + (b + "/" + "awards/"))
  {
  }

  /** The url names the league and the year unambiguously. */
  lemma AwardsUrlInjective(id1: nat, year1: nat, id2: nat, year2: nat)
    requires AwardsUrl(id1, year1) == AwardsUrl(id2, year2)
    ensures id1 == id2 && year1 == year2
  {
    var a1, b1 := NatToString(id1), NatToString(year1);
    var a2, b2 := NatToString(id2), NatToString(year2);
    UrlShape(a1, b1);
    UrlShape(a2, b2);
    PrefixCancel("/api/v1/", a1 + "/" + (b1 + "/" + "awards/"), a2 + "/" + (b2 + "/" + "awards/"));
    SlashSplit(a1, b1 + "/" + "awards/", a2, b2 + "/" + "awards/");
    SlashSplit(b1, "awards/", b2, "awards/");
    NatToStringRoundTrip(id1);
    NatToStringRoundTrip(id2);
    NatToStringRoundTrip(year1);
    NatToStringRoundTrip(year2);
  }

  /**
   * `get_awards_dict`: element 0 of each ranking names the winners, with
   * their owner, team name and total; the league id, the year and the url
   * of the awards page complete it. Either ranking empty is where
   * `sorted_suboptimals[0]` or `sorted_totals[0]` raises.
   */
  function GetAwardsDict(league: League, sortedSuboptimals: seq<Standing>, sortedTotals: seq<Standing>,
                         info: TeamId -> TeamInfo): (r: Result<AwardsDict>)
    ensures r.Ok? <==> sortedSuboptimals != [] && sortedTotals != []
  {
    if sortedSuboptimals == [] || sortedTotals == [] then Err(EmptyRanking)
    else
      var (cotyTeam, cotySub) := sortedSuboptimals[0];
      var (gmotyTeam, gmotyPoints) := sortedTotals[0];
      Ok(AwardsDict(
        info(cotyTeam).owner, info(cotyTeam).teamName, cotySub,
        info(gmotyTeam).owner, info(gmotyTeam).teamName, gmotyPoints,
        league.leagueId, league.year,
        AwardsUrl(league.leagueId, league.year)))
  }

  /** The coach of the year: fewest points left on the bench, the lower team id on a tie. */
  ghost predicate CoachOfTheYear(results: Log<(int, int)>, c: TeamId)
  {
    c in results &&
    forall t :: t in results && t != c ==>
      SuboptimalTotal(results[c]) < SuboptimalTotal(results[t])
      || (SuboptimalTotal(results[c]) == SuboptimalTotal(results[t]) && c < t)
  }

  /** The general manager of the year: highest optimal total, the higher team id on a tie. */
  ghost predicate ManagerOfTheYear(results: Log<(int, int)>, g: TeamId)
  {
    g in results &&
    forall t :: t in results && t != g ==>
      OptimalTotal(results[g]) > OptimalTotal(results[t])
      || (OptimalTotal(results[g]) == OptimalTotal(results[t]) && g > t)
  }

  /** The head of the suboptimality ranking is the coach of the year. */
  lemma SuboptimalityHead(results: Log<(int, int)>)
    requires results != map[]
    ensures GetSuboptimality(results) != [] && CoachOfTheYear(results, GetSuboptimality(results)[0].0)
    ensures GetSuboptimality(results)[0].1 == SuboptimalTotal(results[GetSuboptimality(results)[0].0])
  {
    var sub := GetSuboptimality(results);
    var k :| k in results;
    assert (k, SuboptimalTotal(results[k])) in sub;
    var c := sub[0].0;
    forall t | t in results && t != c
      ensures SuboptimalTotal(results[c]) < SuboptimalTotal(results[t])
              || (SuboptimalTotal(results[c]) == SuboptimalTotal(results[t]) && c < t)
    {
      var j :| 0 <= j < |sub| && sub[j] == (t, SuboptimalTotal(results[t]));
      assert Before(sub[0], sub[j], false);
    }
  }

  /** The head of the optimal-points ranking is the general manager of the year. */
  lemma OptimalPointsForHead(results: Log<(int, int)>)
    requires results != map[]
    ensures GetOptimalPointsFor(results) != [] && ManagerOfTheYear(results, GetOptimalPointsFor(results)[0].0)
    ensures GetOptimalPointsFor(results)[0].1 == OptimalTotal(results[GetOptimalPointsFor(results)[0].0])
  {
    var tot := GetOptimalPointsFor(results);
    var k :| k in results;
    assert (k, OptimalTotal(results[k])) in tot;
    var g := tot[0].0;
    forall t | t in results && t != g
      ensures OptimalTotal(results[g]) > OptimalTotal(results[t])
              || (OptimalTotal(results[g]) == OptimalTotal(results[t]) && g > t)
    {
      var j :| 0 <= j < |tot| && tot[j] == (t, OptimalTotal(results[t]));
      assert Before(tot[0], tot[j], true);
    }
  }

  /** The awards exist exactly for a season with at least one team. */
  lemma AwardsExist(league: League, results: Log<(int, int)>, info: TeamId -> TeamInfo)
    ensures GetAwardsDict(league, GetSuboptimality(results), GetOptimalPointsFor(results), info).Ok?
            <==> results != map[]
  {
    assert |GetSuboptimality(results)| == |results|;
    assert |GetOptimalPointsFor(results)| == |results|;
  }

  /**
   * The awards of a season name the coach of the year and the general
   * manager of the year with their totals, and link to the league's awards
   * page.
   */
  lemma AwardsWinners(league: League, results: Log<(int, int)>, info: TeamId -> TeamInfo)
    requires results != map[]
    ensures var r := GetAwardsDict(league, GetSuboptimality(results), GetOptimalPointsFor(results), info);
      && r.Ok?
      && (exists c :: CoachOfTheYear(results, c) && r.value.coty == info(c).owner
            && r.value.cotyTeam == info(c).teamName && r.value.cotySuboptimal == SuboptimalTotal(results[c]))
      && (exists g :: ManagerOfTheYear(results, g) && r.value.gmoty == info(g).owner
            && r.value.gmotyTeam == info(g).teamName && r.value.gmotyOptimal == OptimalTotal(results[g]))
      && r.value.url == AwardsUrl(league.leagueId, league.year)
  {
    var sub := GetSuboptimality(results);
    var tot := GetOptimalPointsFor(results);
    SuboptimalityHead(results);
    OptimalPointsForHead(results);
    var r := GetAwardsDict(league, sub, tot, info);
    var c := sub[0].0;
    var g := tot[0].0;
    assert r.value.coty == info(c).owner && r.value.cotyTeam == info(c).teamName;
    assert r.value.cotySuboptimal == SuboptimalTotal(results[c]);
    assert r.value.gmoty == info(g).owner && r.value.gmotyTeam == info(g).teamName;
    assert r.value.gmotyOptimal == OptimalTotal(results[g]);
  }

  /** The awards of a logged season: the general manager of the year's optimal total is at least 0. */
  lemma SeasonAwardsOptimalNonNegative(league: League, info: TeamId -> TeamInfo)
    requires SeasonSettings(league).Ok? && SeasonLog(league).Ok?
    ensures var results := SeasonLog(league).value;
      var r := GetAwardsDict(league, GetSuboptimality(results), GetOptimalPointsFor(results), info);
      r.Ok? ==> r.value.gmotyOptimal >= 0
  {
    var results := SeasonLog(league).value;
    var settings := SeasonSettings(league).value;
    var ms := MatchupsFrom(league, 1);
    SeasonLogEntries(league);
    AwardsExist(league, results, info);
    if results != map[] {
      AwardsWinners(league, results, info);
    }
    var r := GetAwardsDict(league, GetSuboptimality(results), GetOptimalPointsFor(results), info);
    if r.Ok? {
      var g :| ManagerOfTheYear(results, g) && r.value.gmotyOptimal == OptimalTotal(results[g]);
      TeamLogOptimalNonNegative(settings, ms, g);
      assert results[g] == TeamLog(ScorePairs(settings), ms, g);
      OptimalTotalNonNegative(results[g]);
    }
  }
}
