# fantasy-coty: the optimal-lineup allocator and the season awards

fantasy-coty names two awards for an ESPN fantasy-football league. The
"coach of the year" is the team whose starters came closest to the best
lineup its roster allowed. The "general manager of the year" is the team
whose rosters could have scored the most. The best lineup of a week is
built greedily: every player of the roster is offered in turn to an
assignment of slots (quarterback, running back, flex, ...). A player takes
room in their primary slot, or replaces the lowest scorer there if they
score strictly more. The player who lost is then tried elsewhere.

There are two allocators:

- **Cascading allocator** (the web service, `api/processor.py` and its
  identical copy in `api/awards.py`). The loser goes on a FIFO worklist and
  is tried at each of its eligible slots in order. Anyone evicted there
  joins the worklist.
- **Single-flex allocator** (the command-line tool, `main.py`). The loser
  gets one try at the flex slot `"RB/WR/TE"`, and whoever loses there is
  dropped.

## Modules

- `Lineup` (`lineup.dfy`). The shared data model:
  - players, matchups and errors;
  - capacity maps (`Settings`) and slot assignments (`Slots`);
  - the first-minimum index used by `min` and `list.index`;
  - the points held by an assignment (`Held`);
  - the `Optimal` class, whose `slots` field is the dictionary of lists the
    allocators update in place.
- `SettingsDerivation` (`settings.dfy`). `get_lineup_settings`, as a loop
  and as the function it computes.
- `Processor` (`processor.py` / `awards.py`). The cascading allocator and
  the score fold:
  - `Allocate` and `Cascade` specify one call on values. The cascade ends
    because every swap raises the points held, and those are bounded by
    the number held times the largest score in play.
  - `AddToOptimal` performs the call in place with its worklist `while`
    loop and is proved to reach `Allocate`'s result.
  - `CalcOptimalScore` folds it over a lineup and then sums.
- `SingleFlex` (`flex.dfy`). The single-flex allocator and score, in the
  same two forms.
- `Season` (`season.dfy`). `process_season` of the web service: a per-team
  log of (reported score, optimal score) pairs. Settings come from week 1
  and every matchup appends home then away.
- `Ranking` (`ranking.dfy`). `sorted(d.items(), key=lambda kv: (kv[1], kv[0]))`,
  ascending or reversed. It is given as the unique ordered list of a map's
  items.
- `Awards` (`awards.dfy`). `get_suboptimality`, `get_optimal_points_for`,
  `get_awards_dict` and its url.
- `CommandLine` (`command_line.dfy`). `process_season` of the command-line
  tool, whose records are `starters`, `whole_team` and `suboptimality`, and
  the two tables it sorts.

## Behaviour reproduced as written

- **Failure on an empty slot.** Taking `min` of an empty slot list raises in
  `add_to_optimal`, and here returns `Err(EmptySlot(slot))`.
  - This happens when a player with non-negative points has a primary
    position the capacity map does not know.
  - It follows that an empty capacity map does not score 0: it fails,
    unless every player scored negative points (`EmptySettingsScore`).
- **An append ends the cascade.** Players still on the worklist are never
  placed (`CascadeAppendDropsQueue`).
- **A swapped player keeps going.** The cascade has no `break` after a swap,
  so the same player goes on to its later eligible slots. It can end up
  held in two slots while the player it evicted is dropped
  (`SwappedPlayerAlsoAppended`).
- **Season failures.** A season without a week-1 matchup fails with
  `NoMatchup`, where `box_scores(1)[0]` raises.

## Model

| member | source | states |
|---|---|---|
| Lineup.FirstMin | fantasy_coty/api/processor.py:51-55 | the index of the slot's lowest scorer: nobody scores less, and everybody before it scores more (the first minimum that `min` and `index` pick) |
| Lineup.TotalPoints | fantasy_coty/api/processor.py:94-100 | the final summation returns the points of every player in every slot list |
| SettingsDerivation.CountSlotPositive | fantasy_coty/api/processor.py:27-29 | a slot is counted exactly when some lineup player was started in it |
| SettingsDerivation.LineupSettings | fantasy_coty/api/processor.py:23-30 | the bench is never a key; every key has a positive capacity; the capacity of every other slot, reserve included, is the number of players started there |
| SettingsDerivation.GetLineupSettings | fantasy_coty/api/processor.py:23-30 | the counting loop returns exactly `LineupSettings` of the home lineup; the same in `fantasy_coty/api/awards.py:38-45` and `fantasy_coty/main.py:40-47` |
| Processor.Allocate | fantasy_coty/api/processor.py:39-48 | a negative scorer leaves the assignment as it was; a primary slot with room gets the player at its end and nothing else changes; a full, empty primary slot fails |
| Processor.AllocateSwapGains | fantasy_coty/api/processor.py:51-79 | when a newcomer beats the lowest scorer of its full primary slot, the call raises the points held by at least the newcomer's points less the evicted player's, whatever the evicted player's cascade does |
| Processor.CascadeAppendDropsQueue | fantasy_coty/api/processor.py:64-72 | at a candidate slot with room the cascade succeeds, adds exactly the current player's points and no other player, so every queued player not already held is lost |
| Processor.TryEligibleSlots | fantasy_coty/api/processor.py:65-77 | the `for` over one player's eligible slots ends placed, failed or exhausted exactly as `Cascade` says, with evicted players queued and the points held raised by every swap |
| Processor.AddToOptimal | fantasy_coty/api/processor.py:33-79 | the in-place call with its FIFO worklist succeeds exactly when `Allocate` does, and leaves the assignment `Allocate` computes; the same in `fantasy_coty/api/awards.py:48-94` |
| Processor.CascadeInvariants | fantasy_coty/api/processor.py:64-77 | along the cascade: no slot outgrows its capacity; only players already held, queued or current end up held; with no negative scorer around, points held never drop; slots that are not candidates (not a settings key, or bench, or reserve) are untouched |
| Processor.AllocateFits | fantasy_coty/api/processor.py:46-77 | one call keeps every slot list within its capacity |
| Processor.AllocatePlayers | fantasy_coty/api/processor.py:41-77 | one call adds no player but the newcomer, and the newcomer only when it scores at least 0 |
| Processor.AllocateNonNegative | fantasy_coty/api/processor.py:41-42 | with no negative scorer held before a call, none is held after it |
| Processor.AllocateHeldMonotone | fantasy_coty/api/processor.py:51-77 | with no negative scorer held, a call never lowers the points held |
| Processor.AllocateFrame | fantasy_coty/api/processor.py:66-67 | a call changes only the newcomer's primary slot and candidate slots |
| Processor.CascadeNoError | fantasy_coty/api/processor.py:70-73 | with positive capacities, the cascade never meets an empty full slot |
| Processor.AllocateFailsIff | fantasy_coty/api/processor.py:46-51 | under the capacity invariant and positive capacities, a call fails exactly when a non-negative player's primary position is not a settings key |
| Processor.CalcOptimalScore | fantasy_coty/api/processor.py:82-100 | the method returns the optimal score of the chosen side's lineup: every player offered in order to a fresh assignment, then the points held summed; the same in `fantasy_coty/api/awards.py:97-115` |
| Processor.FoldInvariants | fantasy_coty/api/processor.py:90-92 | folding over a lineup keeps capacities and non-negativity, never lowers the points held, and holds only lineup players offered with points at least 0 |
| Processor.OptimalScoreSound | fantasy_coty/api/processor.py:82-100 | an optimal score is the total of an assignment within capacity of non-negative lineup players, and is at least 0 |
| Processor.FoldFailsIff | fantasy_coty/api/processor.py:90-92 | with positive capacities, the score fails exactly when some non-negative player's primary position is not a settings key |
| Processor.EmptySettingsScore | fantasy_coty/api/processor.py:46-51 | with no capacities at all, the score exists exactly when every player scored negative points, and is then 0 |
| Processor.ThirdRunningBackGoesToFlex | fantasy_coty/api/processor.py:64-72 | running backs 20, 12, 8 with two running-back slots and a flex: 8 loses to the minimum and cascades into the flex |
| Processor.TwelveTakesFlex | fantasy_coty/api/processor.py:73-77 | an evicted 12 passes the full running-back slot and beats 8 at flex, which is queued |
| Processor.EightLeftOut | fantasy_coty/api/processor.py:64-79 | a queued 8 that beats no minimum is left out and the assignment stays as it is |
| Processor.FlexOccupantDropped | fantasy_coty/api/processor.py:51-79 | 16 replaces the running-back minimum 12, 12 replaces the flex 8, and 8 is dropped |
| Processor.ReceiverHeldTwice | fantasy_coty/api/processor.py:66-77 | an evicted receiver beats 3 at the superflex slot, queues it, then also takes the empty flex slot, which ends the call with the 3 still queued |
| Processor.SwappedPlayerAlsoAppended | fantasy_coty/api/processor.py:51-77 | after a swap the same player goes on to a later eligible slot with room and is held twice, while the player it evicted is dropped |
| SingleFlex.Substring | fantasy_coty/main.py:80 | Python's `x in y` on strings: true exactly when `x` occurs in `y` as a contiguous block |
| SingleFlex.AllocateFlex | fantasy_coty/main.py:50-66 | a negative scorer leaves the assignment as it was; a primary slot with room gets the player at its end; a full, empty primary slot fails (the full, non-empty case is `AllocateFlexPrimary`) |
| SingleFlex.TryFlexOutcome | fantasy_coty/main.py:77-89 | a loser whose position does not occur in the flex code, or a flex code that is not a settings key, changes nothing; otherwise spare flex room takes it at the end, a full flex list swaps it in at its first lowest scorer exactly when it beats some occupant, and only an empty full flex list fails; no other slot changes |
| SingleFlex.AllocateFlexPrimary | fantasy_coty/main.py:56-89 | with a full, non-empty primary slot, the newcomer replaces the first lowest scorer exactly when it scores strictly more than some occupant; the loser (evicted player or newcomer) is appended to a flex list with room, or swapped in at the flex list's first lowest scorer exactly when it beats some occupant, or else dropped; the call fails exactly when the loser is flex-eligible and the flex capacity is 0 |
| SingleFlex.AddToOptimalFlex | fantasy_coty/main.py:50-91 | the in-place call succeeds exactly when `AllocateFlex` does, and leaves the assignment `AllocateFlex` computes |
| SingleFlex.AllocateFlexFits | fantasy_coty/main.py:64-89 | one call keeps every slot list within its capacity |
| SingleFlex.AllocateFlexPlayers | fantasy_coty/main.py:57-89 | one call adds no player but the newcomer, and the newcomer only when it scores at least 0 |
| SingleFlex.AllocateFlexNonNegative | fantasy_coty/main.py:59-60 | with no negative scorer held before a call, none is held after it |
| SingleFlex.AllocateFlexHeldMonotone | fantasy_coty/main.py:69-89 | with no negative scorer held, a call never lowers the points held |
| SingleFlex.AllocateFlexFrame | fantasy_coty/main.py:57-89 | a call changes only the newcomer's primary slot and the flex slot |
| SingleFlex.AllocateFlexUntouched | fantasy_coty/main.py:77-80 | the flex slot is left alone when the flex code is not a settings key, or when the newcomer's position does not occur in the flex code and its primary slot holds only players of that position |
| SingleFlex.AllocateFlexSlotsByPosition | fantasy_coty/main.py:57-89 | a call keeps every slot other than the flex slot holding only players whose primary position is that slot |
| SingleFlex.AllocateFlexFailsIff | fantasy_coty/main.py:64-69 | under the capacity invariant and positive capacities, a call fails exactly when a non-negative player's primary position is not a settings key |
| SingleFlex.CalcOptimalScoreFlex | fantasy_coty/main.py:94-114 | the method returns the single-flex score of the chosen side's lineup with flex code `"RB/WR/TE"` |
| SingleFlex.FoldFlexInvariants | fantasy_coty/main.py:104-106 | folding keeps capacities and non-negativity, never lowers the points held, and holds only lineup players offered with points at least 0 |
| SingleFlex.FlexScoreSound | fantasy_coty/main.py:94-114 | a score is the total of an assignment within capacity of non-negative lineup players, and is at least 0 |
| SingleFlex.FoldFlexFailsIff | fantasy_coty/main.py:104-106 | with positive capacities, the score fails exactly when some non-negative player's primary position is not a settings key |
| SingleFlex.QuarterbackNotFlex | fantasy_coty/main.py:99 | `"QB"` does not occur in `"RB/WR/TE"` |
| SingleFlex.QuarterbackKept | tests/test_optimal.py:50-55 | with the quarterback slot full at 10, an 8 changes nothing |
| SingleFlex.QuarterbackSwapped | tests/test_optimal.py:57-62 | a 12 replaces the quarterback 10, which is dropped |
| SingleFlex.QuarterbackReplaced | tests/test_optimal.py:40-62 | quarterbacks 10, 8, 12 in turn leave exactly `[12]` at quarterback |
| SingleFlex.RunningBackToFlex | tests/test_optimal.py:64-88 | running backs 12 and 10 fill both running-back slots; 8 is turned away and fills the empty flex slot |
| SingleFlex.BumpedRunningBackTakesFlex | fantasy_coty/main.py:69-89 | a fresh running back 11 bumps the 10, the 10 bumps the 8 from flex, and the 8 is dropped |
| Season.ProcessWeek | fantasy_coty/api/processor.py:119-127 | the loop over one week's matchups appends the home and then the away (score, optimal) pair of each, exactly as `LogFrom` says, and fails where a score does |
| Season.ProcessSeason | fantasy_coty/api/processor.py:103-134 | settings come from week 1's first matchup, and the season is logged week by week as `SeasonLog` says; the same in `fantasy_coty/api/awards.py:118-140` |
| Season.LogFromOk | fantasy_coty/api/awards.py:130-137 | logging a run of matchups succeeds exactly when both sides of every matchup can be scored |
| Season.LogFromEntries | fantasy_coty/api/awards.py:130-137 | each team's log is extended by exactly its own pairs, home score with home lineup and away with away, in matchup order |
| Season.LogFromKeys | fantasy_coty/api/awards.py:130-137 | the teams logged are those logged before plus those that played |
| Season.TeamLogAppend | fantasy_coty/api/awards.py:126-130 | a team's pairs over consecutive weeks come week by week, in order |
| Season.LogFromConcat | fantasy_coty/api/awards.py:126-137 | logging two runs of matchups in turn is logging their concatenation, and a failure stops it |
| Season.SeasonLogEntries | fantasy_coty/api/awards.py:118-140 | a season log exists exactly when every side is scored with the week-1 settings; it then holds for each team exactly its own pairs in week order, for exactly the teams that played |
| Season.TeamLogOptimalNonNegative | fantasy_coty/api/awards.py:132-137 | every optimal score in a team's log is at least 0 |
| Ranking.Rank | fantasy_coty/api/awards.py:150 | the ranking lists every item of the map exactly once, nothing else, ordered by (total, team) ascending or reversed |
| Ranking.RankUnique | fantasy_coty/api/awards.py:150 | any ordered list of exactly the items is this ranking, so the sort has one possible result |
| Ranking.RankHead | fantasy_coty/api/awards.py:150 | a non-empty ranking starts with the item that comes before every other |
| Awards.SuboptimalIsShortfall | fantasy_coty/api/awards.py:149 | a team's suboptimality is its optimal total less its reported total |
| Awards.OptimalTotalNonNegative | fantasy_coty/api/awards.py:166 | an optimal total of non-negative scores is at least 0 |
| Awards.GetSuboptimality | fantasy_coty/api/awards.py:143-157 | every team once with the sum of optimal minus actual, sorted ascending by (total, team); the same in `fantasy_coty/api/processor.py:137-151` |
| Awards.GetOptimalPointsFor | fantasy_coty/api/awards.py:160-174 | every team once with the sum of its optimal scores, sorted descending by (total, team), so ties go to the larger team id; the same in `fantasy_coty/api/processor.py:154-168` |
| Awards.NatToStringRoundTrip | fantasy_coty/api/awards.py:199 | the decimal text of a number reads back as that number |
| Awards.AwardsUrlInjective | fantasy_coty/api/awards.py:199 | a property of the url format rather than a promise of the code: different (league id, year) pairs give different award urls |
| Awards.GetAwardsDict | fantasy_coty/api/awards.py:177-201 | the dictionary exists exactly when both rankings are non-empty; it names element 0 of each; the same in `fantasy_coty/api/processor.py:171-195` |
| Awards.SuboptimalityHead | fantasy_coty/api/awards.py:183 | the head of the suboptimality ranking is the coach of the year: fewest points on the bench, lower team id on a tie |
| Awards.OptimalPointsForHead | fantasy_coty/api/awards.py:184 | the head of the optimal ranking is the general manager of the year: highest optimal total, higher team id on a tie |
| Awards.AwardsExist | fantasy_coty/api/awards.py:183-184 | the awards exist exactly when the season logged at least one team |
| Awards.AwardsWinners | fantasy_coty/api/awards.py:183-199 | the awards name the coach and the general manager of the year with their owners, team names and totals, and link to `/api/v1/<league_id>/<year>/awards/` |
| Awards.SeasonAwardsOptimalNonNegative | fantasy_coty/api/awards.py:192-194 | in the awards of a logged season, the general manager's optimal total is at least 0 |
| CommandLine.SideScores | fantasy_coty/main.py:132-141 | one side's record is its reported score, the points of its whole lineup and its optimal score less the reported score, and fails where the score does |
| CommandLine.ProcessWeekScores | fantasy_coty/main.py:130-155 | the loop over one week's matchups appends the home and then the away record of each, exactly as `LogFrom` says |
| CommandLine.ProcessSeasonScores | fantasy_coty/main.py:117-157 | settings come from week 1's first matchup, and the season is recorded week by week as `CommandLineSeason` says |
| CommandLine.WeekRecordSound | fantasy_coty/main.py:132-154 | a side's record exists unless a non-negative player's position is not a settings key; then `whole_team` is the sum over the side's lineup, bench included, and `starters + suboptimality` is the side's optimal score, at least 0 |
| CommandLine.CommandLineSeasonEntries | fantasy_coty/main.py:117-157 | the season exists exactly when every side is scored; it then holds for each team exactly its own records in week order, for exactly the teams that played |
| CommandLine.TeamRecordsOptimalNonNegative | fantasy_coty/main.py:133-141 | every record of a team has starters plus suboptimality at least 0 |
| CommandLine.SuboptimalitySumIsShortfall | fantasy_coty/main.py:166 | a season's suboptimality is its optimal total less its reported total |
| CommandLine.GetSortedSuboptimals | fantasy_coty/main.py:160-174 | every team once with its summed suboptimality, sorted ascending by (total, team) |
| CommandLine.GetSortedTeamScores | fantasy_coty/main.py:177-193 | every team once with its summed whole-team score, sorted descending by (total, team) |
| CommandLine.SortedSuboptimalsHead | fantasy_coty/main.py:167 | the first line of the suboptimality table is the team with the fewest points on the bench, lower id on a tie |
| CommandLine.SortedTeamScoresHead | fantasy_coty/main.py:184-186 | the first line of the team-score table is the team with the highest whole-roster total, higher id on a tie |
| CommandLine.OptimalBelowStarters | fantasy_coty/main.py:77-80 | a quarterback started at the superflex slot `OP` loses to a higher quarterback at quarterback and, as `"QB"` does not occur in the flex code, is dropped: with settings derived from that lineup the record is 35 reported, 35 whole team and suboptimality -15 |
| CommandLine.SeasonOptimalNonNegative | fantasy_coty/main.py:117-157 | for every team of a computed season, reported total plus suboptimality is at least 0 |

## Left out

- Fetching a league from ESPN is not modelled, and neither is `init_league`
  with its argument parsing. A `League` value supplies the regular-season
  week count and each week's matchups.
- The Flask route and `jsonify`, `start_thread`, and the `running_jobs`
  map with its lock are I/O and concurrency plumbing. So are the sqlite
  functions of `model.py`, `config.py` and `setup.py`.
- `print` output and the `verbose` flag are console I/O. This includes
  `print_awards`, which only prints the heads of the two tables that
  `SortedSuboptimalsHead` and `SortedTeamScoresHead` describe.
- Points are integers, not floats.
- Awards.GetAwardsDict: the totals are stored as they are, without
  `round(x, 2)`, because points are integers here.
- ESPN `Team` objects are replaced by a totally ordered team id that breaks
  sort ties. The owner and team name of a team come from a given function.
- Dictionary lookups that insert a default are not modelled as inserting.
  - An absent slot reads as an empty list and an absent capacity as 0.
  - The empty list it adds to `optimal` changes no sum.
  - The 0 capacity it adds to the settings always comes just before the
    `min` of an empty list raises, which ends the season.
- The unit-test assertions at tests/test_optimal.py:90-99 are not modelled.
  They change the points of a player that already sits in the flex list
  through aliasing, so they do not describe the allocator as written.
  `BumpedRunningBackTakesFlex` states what a fresh player of 11 points does.
- No property bounds the optimal score from below by the reported score.
  The single-flex allocator breaks it: `OptimalBelowStarters` gives a
  lineup whose optimal score is 20 against a reported 35. For the cascading
  allocator the model proves no such bound and gives no counterexample.
- SingleFlex.AllocateFlexPrimary: stated only for a newcomer whose primary
  position is not the flex code itself, where the flex try would work on the
  list just changed. ESPN positions such as `RB` are never the flex code
  `"RB/WR/TE"`.
- Aliasing between player objects is not modelled. Players are values, and
  the `index` of the lowest scorer is taken to be the first slot with the
  minimum score, which is the element `min` returns.
