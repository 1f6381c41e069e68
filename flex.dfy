/**
 * The older allocator of the command-line tool: no worklist. A player who
 * is bumped from, or turned away by, a full primary slot gets exactly one
 * try at the flex slot, and whoever loses there is dropped.
 */
module SingleFlex {
  import opened Lineup

  /** The flex slot code the command-line tool passes to the allocator. */
  const Flex := "RB/WR/TE"

  /** `x` occurs in `y` starting at index `i`. */
  predicate OccursAt(x: string, y: string, i: int)
  {
    0 <= i && i + |x| <= |y| && y[i..i + |x|] == x
  }

  /** Python's `x in y` on strings: `x` occurs in `y` as a contiguous block. */
  function Substring(x: string, y: string): (r: bool)
    ensures r <==> exists i :: OccursAt(x, y, i)
    decreases |y|
  {
    if |x| > |y| then false
    else if y[..|x|] == x then
      assert OccursAt(x, y, 0);
      true
    else
      var r := Substring(x, y[1..]);
      assert r <==> exists i :: OccursAt(x, y, i) by {
        if r {
          var i :| OccursAt(x, y[1..], i);
          assert y[1..][i..i + |x|] == y[i + 1..i + 1 + |x|];
          assert OccursAt(x, y, i + 1);
        }
        if exists i :: OccursAt(x, y, i) {
          var i :| OccursAt(x, y, i);
          assert i != 0;
          assert y[1..][i - 1..i - 1 + |x|] == y[i..i + |x|];
          assert OccursAt(x, y[1..], i - 1);
        }
      }
      r
  }

  /**
   * The flex step for `fp`, the player that lost at its primary slot: it is
   * tried at `flex` only when its position occurs in the flex code and the
   * flex code is a settings key; it fills spare room, or takes the place of
   * the first minimum when strictly higher; otherwise it is dropped.
   */
  function TryFlex(b: Slots, settings: Settings, fp: Player, flex: string): Result<Slots>
  {
    if Substring(fp.position, flex) && flex in settings then
      var f := Get(b, flex);
      if |f| < settings[flex] then Ok(b[flex := f + [fp]])
      else if f == [] then Err(EmptySlot(flex))
      else
        var j := FirstMin(f);
        if fp.points > f[j].points then Ok(b[flex := f[j := fp]]) else Ok(b)
    else Ok(b)
  }

  /**
   * `add_to_optimal` of the command-line tool, on values. A negative scorer
   * is ignored; a primary slot with room takes the player; a full primary
   * slot swaps in a strictly higher player at its first minimum; the player
   * that lost (the evicted one, or the newcomer) then gets its flex try.
   * An empty full slot is where `add_to_optimal`'s `min()` raises.
   */
  function AllocateFlex(a: Slots, settings: Settings, p: Player, flex: string): (r: Result<Slots>)
    ensures p.points < 0 ==> r == Ok(a)
    ensures p.points >= 0 && |Get(a, p.position)| < Cap(settings, p.position) ==>
              r == Ok(a[p.position := Get(a, p.position) + [p]])
    ensures p.points >= 0 && Get(a, p.position) == [] && Cap(settings, p.position) == 0 ==>
              r == Err(EmptySlot(p.position))
  {
    if p.points < 0 then Ok(a)
    else
      var l := Get(a, p.position);
      if |l| < Cap(settings, p.position) then Ok(a[p.position := l + [p]])
      else if l == [] then Err(EmptySlot(p.position))
      else
        var k := FirstMin(l);
        if p.points > l[k].points then TryFlex(a[p.position := l[k := p]], settings, l[k], flex)
        else TryFlex(a, settings, p, flex)
  }

  /**
   * `add_to_optimal` of the command-line tool, updating the slot lists in
   * place. `ok` is false where `add_to_optimal`'s `min()` raises.
   */
  method AddToOptimalFlex(optimal: Optimal, settings: Settings, player: Player, flex: string)
    returns (ok: bool)
    modifies optimal
    ensures ok == AllocateFlex(old(optimal.slots), settings, player, flex).Ok?
    ensures ok ==> optimal.slots == AllocateFlex(old(optimal.slots), settings, player, flex).value
  {
    var posList := Get(optimal.slots, player.position);
    if player.points < 0 {
      return true;
    }
    if |posList| < Cap(settings, player.position) {
      optimal.slots := optimal.slots[player.position := posList + [player]];
      return true;
    }
    if posList == [] {
      return false;
    }
    var minIndex := FirstMin(posList);
    var lowest := posList[minIndex];
    var replaced := false;
    if player.points > lowest.points {
      optimal.slots := optimal.slots[player.position := posList[minIndex := player]];
      replaced := true;
    }
    var flexPlayer := if replaced then lowest else player;
    if Substring(flexPlayer.position, flex) && flex in settings {
      posList := Get(optimal.slots, flex);
      if |posList| < settings[flex] {
        optimal.slots := optimal.slots[flex := posList + [flexPlayer]];
        return true;
      }
      if posList == [] {
        return false;
      }
      minIndex := FirstMin(posList);
      lowest := posList[minIndex];
      if flexPlayer.points > lowest.points {
        optimal.slots := optimal.slots[flex := posList[minIndex := flexPlayer]];
      }
    }
    return true;
  }

  // ---------------------------------------------------------------------
  // What one call preserves

  lemma TryFlexFits(b: Slots, settings: Settings, fp: Player, flex: string)
    requires Fits(b, settings)
    ensures TryFlex(b, settings, fp, flex).Ok? ==> Fits(TryFlex(b, settings, fp, flex).value, settings)
  {
  }

  /** One call keeps the capacity invariant: no slot list outgrows its capacity. */
  lemma AllocateFlexFits(a: Slots, settings: Settings, p: Player, flex: string)
    requires Fits(a, settings)
    ensures AllocateFlex(a, settings, p, flex).Ok? ==> Fits(AllocateFlex(a, settings, p, flex).value, settings)
  {
    var l := Get(a, p.position);
    if p.points >= 0 && l != [] && |l| >= Cap(settings, p.position) {
      var k := FirstMin(l);
      if p.points > l[k].points {
        var b := a[p.position := l[k := p]];
        assert Fits(b, settings);
        TryFlexFits(b, settings, l[k], flex);
      } else {
        TryFlexFits(a, settings, p, flex);
      }
    }
  }

  lemma TryFlexPlayers(b: Slots, settings: Settings, fp: Player, flex: string)
    ensures TryFlex(b, settings, fp, flex).Ok? ==> Players(TryFlex(b, settings, fp, flex).value) <= Players(b) + {fp}
  {
    if Substring(fp.position, flex) && flex in settings {
      var f := Get(b, flex);
      if |f| < settings[flex] {
        PlayersAppend(b, flex, fp);
      } else if f != [] {
        PlayersSwap(b, flex, FirstMin(f), fp);
      }
    }
  }

  /**
   * One call places no player but the newcomer, and the newcomer only if it
   * does not score negative points; a player may be dropped.
   */
  lemma AllocateFlexPlayers(a: Slots, settings: Settings, p: Player, flex: string)
    ensures var r := AllocateFlex(a, settings, p, flex);
      r.Ok? ==> Players(r.value) <= Players(a) + (if p.points >= 0 then {p} else {})
  {
    var l := Get(a, p.position);
    if p.points >= 0 && |l| < Cap(settings, p.position) {
      PlayersAppend(a, p.position, p);
    } else if p.points >= 0 && l != [] {
      var k := FirstMin(l);
      if p.points > l[k].points {
        var b := a[p.position := l[k := p]];
        PlayersSwap(a, p.position, k, p);
        TryFlexPlayers(b, settings, l[k], flex);
        assert l[k] in a[p.position];
      } else {
        TryFlexPlayers(a, settings, p, flex);
      }
    }
  }

  /** With no negative scorer held before a call, none is held after it. */
  lemma AllocateFlexNonNegative(a: Slots, settings: Settings, p: Player, flex: string)
    requires NonNegative(a)
    ensures AllocateFlex(a, settings, p, flex).Ok? ==> NonNegative(AllocateFlex(a, settings, p, flex).value)
  {
    var r := AllocateFlex(a, settings, p, flex);
    if r.Ok? {
      AllocateFlexPlayers(a, settings, p, flex);
      PlayersOfNonNegative(a);
      NonNegativeOfPlayers(r.value);
    }
  }

  lemma TryFlexHeld(b: Slots, settings: Settings, fp: Player, flex: string)
    requires fp.points >= 0
    ensures TryFlex(b, settings, fp, flex).Ok? ==> Held(TryFlex(b, settings, fp, flex).value) >= Held(b)
  {
    if Substring(fp.position, flex) && flex in settings {
      var f := Get(b, flex);
      if |f| < settings[flex] {
        AppendRaisesHeld(b, flex, fp);
      } else if f != [] {
        SwapRaisesHeld(b, flex, FirstMin(f), fp);
      }
    }
  }

  /** With no negative scorer held, a call never lowers the points held. */
  lemma AllocateFlexHeldMonotone(a: Slots, settings: Settings, p: Player, flex: string)
    requires NonNegative(a)
    ensures AllocateFlex(a, settings, p, flex).Ok? ==> Held(AllocateFlex(a, settings, p, flex).value) >= Held(a)
  {
    var l := Get(a, p.position);
    if p.points >= 0 && |l| < Cap(settings, p.position) {
      AppendRaisesHeld(a, p.position, p);
    } else if p.points >= 0 && l != [] {
      var k := FirstMin(l);
      if p.points > l[k].points {
        var b := a[p.position := l[k := p]];
        SwapRaisesHeld(a, p.position, k, p);
        assert AllNonNegative(a[p.position]);
        TryFlexHeld(b, settings, l[k], flex);
      } else {
        TryFlexHeld(a, settings, p, flex);
      }
    }
  }

  /** One call changes no slot other than the newcomer's primary slot and the flex slot. */
  lemma AllocateFlexFrame(a: Slots, settings: Settings, p: Player, flex: string, s: string)
    requires s != p.position && s != flex
    ensures AllocateFlex(a, settings, p, flex).Ok? ==> Get(AllocateFlex(a, settings, p, flex).value, s) == Get(a, s)
  {
  }

  /**
   * What the flex try for `fp` does to a flex list `f`, with `r` the
   * outcome: a loser whose position does not occur in the flex code, or a
   * flex code that is not a settings key, leaves the list as it was;
   * otherwise the loser fills spare room at the end of the list, or, in a
   * full list, takes the place of its first lowest scorer exactly when it
   * scores strictly more than some occupant. Only an empty full list fails.
   */
  ghost predicate FlexOutcome(f: seq<Player>, settings: Settings, fp: Player, flex: string, r: Result<Slots>)
  {
    var tried := Substring(fp.position, flex) && flex in settings;
    && (r.Err? <==> tried && f == [] && settings[flex] == 0)
    && (!tried ==> r.Ok? && Get(r.value, flex) == f)
    && (tried && |f| < settings[flex] ==> r.Ok? && Get(r.value, flex) == f + [fp])
    && (tried && |f| >= settings[flex] && f != [] ==>
          r.Ok? && Get(r.value, flex)
                   == if exists i :: 0 <= i < |f| && fp.points > f[i].points then f[FirstMin(f) := fp] else f)
  }

  /** The flex try does what `FlexOutcome` says to the flex list, and changes no other slot. */
  lemma TryFlexOutcome(b: Slots, settings: Settings, fp: Player, flex: string)
    ensures FlexOutcome(Get(b, flex), settings, fp, flex, TryFlex(b, settings, fp, flex))
    ensures TryFlex(b, settings, fp, flex).Ok? ==>
              forall s :: s != flex ==> Get(TryFlex(b, settings, fp, flex).value, s) == Get(b, s)
  {
    var f := Get(b, flex);
    if Substring(fp.position, flex) && flex in settings && |f| >= settings[flex] && f != [] {
      var j := FirstMin(f);
      if exists i :: 0 <= i < |f| && fp.points > f[i].points {
        var i :| 0 <= i < |f| && fp.points > f[i].points;
        assert f[j].points <= f[i].points;
      }
    }
  }

  /**
   * A call with a full primary slot: the newcomer takes the place of the
   * first lowest scorer exactly when it scores strictly more than some
   * occupant, and the player that lost (the evicted one, or the newcomer)
   * then gets the flex try, on the flex list as it was.
   */
  lemma AllocateFlexPrimary(a: Slots, settings: Settings, p: Player, flex: string)
    requires p.position != flex && p.points >= 0
    requires Get(a, p.position) != [] && |Get(a, p.position)| >= Cap(settings, p.position)
    ensures var l := Get(a, p.position);
      var beats := exists i :: 0 <= i < |l| && p.points > l[i].points;
      var r := AllocateFlex(a, settings, p, flex);
      && (r.Ok? ==> Get(r.value, p.position) == (if beats then l[FirstMin(l) := p] else l))
      && FlexOutcome(Get(a, flex), settings, if beats then l[FirstMin(l)] else p, flex, r)
  {
    var l := Get(a, p.position);
    var k := FirstMin(l);
    if exists i :: 0 <= i < |l| && p.points > l[i].points {
      var i :| 0 <= i < |l| && p.points > l[i].points;
      assert l[k].points <= l[i].points;
      var b := a[p.position := l[k := p]];
      assert AllocateFlex(a, settings, p, flex) == TryFlex(b, settings, l[k], flex);
      assert Get(b, flex) == Get(a, flex);
      TryFlexOutcome(b, settings, l[k], flex);
    } else {
      assert p.points <= l[k].points;
      assert AllocateFlex(a, settings, p, flex) == TryFlex(a, settings, p, flex);
      TryFlexOutcome(a, settings, p, flex);
    }
  }

  /**
   * The flex slot is left alone when the flex code is not a settings key,
   * or when the newcomer's position does not occur in the flex code and
   * its primary slot holds only players of that position (so the loser's
   * position does not occur either).
   */
  lemma AllocateFlexUntouched(a: Slots, settings: Settings, p: Player, flex: string)
    requires p.position != flex
    requires flex !in settings
             || (!Substring(p.position, flex) && forall x :: x in Get(a, p.position) ==> x.position == p.position)
    ensures AllocateFlex(a, settings, p, flex).Ok? ==> Get(AllocateFlex(a, settings, p, flex).value, flex) == Get(a, flex)
  {
    var l := Get(a, p.position);
    if p.points >= 0 && l != [] && |l| >= Cap(settings, p.position) {
      var k := FirstMin(l);
      assert l[k] in l;
    }
  }

  /** Every slot other than the flex slot holds only players whose primary position is that slot. */
  ghost predicate SlotsByPosition(a: Slots, flex: string)
  {
    forall s, x :: s in a && s != flex && x in a[s] ==> x.position == s
  }

  /**
   * A call keeps that arrangement: a player only ever enters its own
   * primary slot or the flex slot.
   */
  lemma AllocateFlexSlotsByPosition(a: Slots, settings: Settings, p: Player, flex: string)
    requires SlotsByPosition(a, flex)
    ensures AllocateFlex(a, settings, p, flex).Ok? ==> SlotsByPosition(AllocateFlex(a, settings, p, flex).value, flex)
  {
    var r := AllocateFlex(a, settings, p, flex);
    var l := Get(a, p.position);
    if r.Ok? && p.points >= 0 {
      forall s, x | s in r.value && s != flex && x in r.value[s] ensures x.position == s {
        if s == p.position {
          if |l| < Cap(settings, p.position) {
            assert x in l || x == p;
          } else {
            var k := FirstMin(l);
            if p.points > l[k].points {
              assert x in l[k := p] by {
                TryFlexOutcome(a[p.position := l[k := p]], settings, l[k], flex);
              }
              assert x in l || x == p;
            } else {
              TryFlexOutcome(a, settings, p, flex);
            }
          }
        } else {
          AllocateFlexFrame(a, settings, p, flex, s);
          assert x in Get(a, s);
        }
      }
    }
  }

  /**
   * Under the capacity invariant and positive settings, a call fails
   * exactly when a non-negative player's primary position is not a
   * settings key (its capacity reads as 0 and `min()` meets an empty list).
   */
  lemma AllocateFlexFailsIff(a: Slots, settings: Settings, p: Player, flex: string)
    requires Fits(a, settings) && PositiveSettings(settings)
    ensures AllocateFlex(a, settings, p, flex).Err? <==> p.points >= 0 && p.position !in settings
  {
    var l := Get(a, p.position);
    if p.points >= 0 && p.position !in settings {
      assert p.position in a ==> |a[p.position]| <= 0;
    } else if p.points >= 0 && l != [] && |l| >= Cap(settings, p.position) {
      var k := FirstMin(l);
      var b := if p.points > l[k].points then a[p.position := l[k := p]] else a;
      assert Fits(b, settings);
      assert flex in settings ==> Get(b, flex) == [] ==> |Get(b, flex)| < settings[flex];
    }
  }

  // ---------------------------------------------------------------------
  // The optimal score of a lineup

  /** `add_to_optimal` folded over a lineup in order, starting from `a`. */
  function FoldFlexFrom(a: Slots, settings: Settings, lineup: seq<Player>, flex: string): Result<Slots>
    decreases |lineup|
  {
    if lineup == [] then Ok(a)
    else
      match AllocateFlex(a, settings, lineup[0], flex)
      case Err(e) => Err(e)
      case Ok(b) => FoldFlexFrom(b, settings, lineup[1..], flex)
  }

  /** The optimal score of a lineup: the points held once every player was offered. */
  ghost function FlexScore(lineup: seq<Player>, settings: Settings): Result<int>
  {
    match FoldFlexFrom(map[], settings, lineup, Flex)
    case Err(e) => Err(e)
    case Ok(b) => Ok(Held(b))
  }

  /**
   * `calc_optimal_score` of the command-line tool: offers every player of
   * the chosen side's lineup, in order, with the flex code `"RB/WR/TE"`,
   * then adds up what is held.
   */
  method CalcOptimalScoreFlex(matchup: Matchup, settings: Settings, home: bool) returns (r: Result<int>)
    ensures r == FlexScore(if home then matchup.homeLineup else matchup.awayLineup, settings)
  {
    var optimal := new Optimal();
    var lineup := if home then matchup.homeLineup else matchup.awayLineup;
    for i := 0 to |lineup|
      invariant FoldFlexFrom(optimal.slots, settings, lineup[i..], Flex) == FoldFlexFrom(map[], settings, lineup, Flex)
    {
      assert lineup[i..][1..] == lineup[i + 1..];
      var ok := AddToOptimalFlex(optimal, settings, lineup[i], Flex);
      if !ok {
        return Err(FoldFlexFrom(map[], settings, lineup, Flex).error);
      }
    }
    assert lineup[|lineup|..] == [];
    var optScore := TotalPoints(optimal);
    return Ok(optScore);
  }

  /**
   * Folding keeps the capacity and non-negativity invariants, never lowers
   * the points held, and holds only players offered non-negative.
   */
  lemma {:induction false} FoldFlexInvariants(a: Slots, settings: Settings, lineup: seq<Player>, flex: string)
    requires Fits(a, settings) && NonNegative(a)
    ensures var r := FoldFlexFrom(a, settings, lineup, flex);
      r.Ok? ==>
        && Fits(r.value, settings) && NonNegative(r.value) && Held(r.value) >= Held(a)
        && Players(r.value) <= Players(a) + (set x | x in lineup && x.points >= 0)
    decreases |lineup|
  {
    if lineup != [] {
      var p := lineup[0];
      AllocateFlexFits(a, settings, p, flex);
      AllocateFlexNonNegative(a, settings, p, flex);
      AllocateFlexHeldMonotone(a, settings, p, flex);
      AllocateFlexPlayers(a, settings, p, flex);
      var r1 := AllocateFlex(a, settings, p, flex);
      if r1.Ok? {
        FoldFlexInvariants(r1.value, settings, lineup[1..], flex);
        assert (set x | x in lineup[1..] && x.points >= 0) <= (set x | x in lineup && x.points >= 0);
      }
    }
  }

  /**
   * The optimal score, when it exists, is the total of a feasible
   * assignment of non-negative lineup players, and so is at least 0.
   */
  lemma FlexScoreSound(lineup: seq<Player>, settings: Settings)
    ensures var r := FoldFlexFrom(map[], settings, lineup, Flex);
      r.Ok? ==>
        && Fits(r.value, settings)
        && Players(r.value) <= (set x | x in lineup && x.points >= 0)
        && FlexScore(lineup, settings) == Ok(Held(r.value))
        && Held(r.value) >= 0
  {
    var empty: Slots := map[];
    assert Players(empty) == {};
    assert Held(empty) == 0;
    FoldFlexInvariants(empty, settings, lineup, Flex);
  }

  /**
   * Under the capacity invariant and positive settings, folding fails
   * exactly when some non-negative player's primary position is not a
   * settings key.
   */
  lemma {:induction false} FoldFlexFailsIff(a: Slots, settings: Settings, lineup: seq<Player>, flex: string)
    requires Fits(a, settings) && PositiveSettings(settings)
    ensures FoldFlexFrom(a, settings, lineup, flex).Err? <==>
              exists i :: 0 <= i < |lineup| && lineup[i].points >= 0 && lineup[i].position !in settings
    decreases |lineup|
  {
    if lineup != [] {
      var p := lineup[0];
      AllocateFlexFailsIff(a, settings, p, flex);
      AllocateFlexFits(a, settings, p, flex);
      var r1 := AllocateFlex(a, settings, p, flex);
      if r1.Ok? {
        FoldFlexFailsIff(r1.value, settings, lineup[1..], flex);
        if exists i :: 0 <= i < |lineup| && lineup[i].points >= 0 && lineup[i].position !in settings {
          var i :| 0 <= i < |lineup| && lineup[i].points >= 0 && lineup[i].position !in settings;
          assert i > 0;
          assert lineup[1..][i - 1] == lineup[i];
        }
        if exists i :: 0 <= i < |lineup[1..]| && lineup[1..][i].points >= 0 && lineup[1..][i].position !in settings {
          var i :| 0 <= i < |lineup[1..]| && lineup[1..][i].points >= 0 && lineup[1..][i].position !in settings;
          assert lineup[i + 1] == lineup[1..][i];
        }
      }
    }
  }

  // ---------------------------------------------------------------------
  // The unit-test roster

  /** The capacities the unit tests configure. */
  function TestSettings(): Settings
  {
    map["QB" := 1, "RB" := 2, "WR" := 2, "TE" := 1, Flex := 1, "D/ST" := 1, "K" := 1]
  }

  function Scorer(position: string, points: int): Player
  {
    Player(position, position, points, [])
  }

  /** A quarterback is never flex-eligible: `"QB"` does not occur in `"RB/WR/TE"`. */
  lemma QuarterbackNotFlex()
    ensures !Substring("QB", Flex)
  {
    forall i | 0 <= i && i + 2 <= |Flex| ensures !OccursAt("QB", Flex, i) {
      assert Flex[i..i + 2][0] == Flex[i];
      assert Flex[i] != 'Q' by {
        assert i in {0, 1, 2, 3, 4, 5, 6};
      }
    }
  }

  /** With the quarterback slot full, a lower or tying quarterback changes nothing. */
  lemma QuarterbackKept(a: Slots, settings: Settings, p: Player)
    requires a == map["QB" := [Scorer("QB", 10)]] && settings == TestSettings() && p == Scorer("QB", 8)
    ensures AllocateFlex(a, settings, p, Flex) == Ok(a)
  {
    QuarterbackNotFlex();
  }

  /** A higher quarterback replaces the one held; the old one is dropped. */
  lemma QuarterbackSwapped(a: Slots, settings: Settings, p: Player)
    requires a == map["QB" := [Scorer("QB", 10)]] && settings == TestSettings() && p == Scorer("QB", 12)
    ensures AllocateFlex(a, settings, p, Flex) == Ok(map["QB" := [Scorer("QB", 12)]])
  {
    QuarterbackNotFlex();
    assert a["QB"][0 := p] == [p];
    assert a["QB" := [p]] == map["QB" := [Scorer("QB", 12)]];
  }

  /** Quarterbacks 10, 8 and 12 in turn leave exactly the 12 at quarterback. */
  lemma QuarterbackReplaced(a0: Slots, settings: Settings)
    requires a0 == map[] && settings == TestSettings()
    ensures FoldFlexFrom(a0, settings, [Scorer("QB", 10), Scorer("QB", 8), Scorer("QB", 12)], Flex)
            == Ok(map["QB" := [Scorer("QB", 12)]])
  {
    var none: seq<Player> := [];
    var a1: Slots := map["QB" := [Scorer("QB", 10)]];
    assert AllocateFlex(a0, settings, Scorer("QB", 10), Flex) == Ok(a1) by {
      assert none + [Scorer("QB", 10)] == [Scorer("QB", 10)];
      assert a0["QB" := [Scorer("QB", 10)]] == a1;
    }
    QuarterbackKept(a1, settings, Scorer("QB", 8));
    QuarterbackSwapped(a1, settings, Scorer("QB", 12));
    var lineup := [Scorer("QB", 10), Scorer("QB", 8), Scorer("QB", 12)];
    assert lineup[1..] == [Scorer("QB", 8), Scorer("QB", 12)];
    assert lineup[1..][1..] == [Scorer("QB", 12)];
    assert lineup[1..][1..][1..] == [];
  }

  /**
   * Running backs 12 and 10 fill the two running-back slots; 8 is turned
   * away there and fills the empty flex slot.
   */
  lemma RunningBackToFlex(a0: Slots, settings: Settings)
    requires a0 == map["QB" := [Scorer("QB", 12)]] && settings == TestSettings()
    ensures FoldFlexFrom(a0, settings, [Scorer("RB", 12), Scorer("RB", 10), Scorer("RB", 8)], Flex)
            == Ok(map["QB" := [Scorer("QB", 12)], "RB" := [Scorer("RB", 12), Scorer("RB", 10)],
                      Flex := [Scorer("RB", 8)]])
  {
    var none: seq<Player> := [];
    var a1: Slots := a0["RB" := [Scorer("RB", 12)]];
    var a2: Slots := a0["RB" := [Scorer("RB", 12), Scorer("RB", 10)]];
    var a3: Slots := a2[Flex := [Scorer("RB", 8)]];
    assert AllocateFlex(a0, settings, Scorer("RB", 12), Flex) == Ok(a1) by {
      assert none + [Scorer("RB", 12)] == [Scorer("RB", 12)];
    }
    assert AllocateFlex(a1, settings, Scorer("RB", 10), Flex) == Ok(a2) by {
      assert [Scorer("RB", 12)] + [Scorer("RB", 10)] == [Scorer("RB", 12), Scorer("RB", 10)];
      assert a1["RB" := a1["RB"] + [Scorer("RB", 10)]] == a2;
    }
    assert AllocateFlex(a2, settings, Scorer("RB", 8), Flex) == Ok(a3) by {
      assert OccursAt("RB", Flex, 0);
      assert FirstMin(a2["RB"]) == 1;
      assert Get(a2, Flex) == none;
      assert none + [Scorer("RB", 8)] == [Scorer("RB", 8)];
    }
    assert a3 == map["QB" := [Scorer("QB", 12)], "RB" := [Scorer("RB", 12), Scorer("RB", 10)],
                     Flex := [Scorer("RB", 8)]];
    var lineup := [Scorer("RB", 12), Scorer("RB", 10), Scorer("RB", 8)];
    assert lineup[1..] == [Scorer("RB", 10), Scorer("RB", 8)];
    assert lineup[1..][1..] == [Scorer("RB", 8)];
    assert lineup[1..][1..][1..] == [];
  }

  /**
   * What the last unit test means to check, with a fresh running back 11:
   * it bumps the 10 from running back, the 10 bumps the 8 from flex, and
   * the 8 is dropped.
   */
  lemma BumpedRunningBackTakesFlex(a: Slots, settings: Settings)
    requires a == map["QB" := [Scorer("QB", 12)], "RB" := [Scorer("RB", 12), Scorer("RB", 10)],
                      Flex := [Scorer("RB", 8)]]
    requires settings == TestSettings()
    ensures AllocateFlex(a, settings, Scorer("RB", 11), Flex)
            == Ok(map["QB" := [Scorer("QB", 12)], "RB" := [Scorer("RB", 12), Scorer("RB", 11)],
                      Flex := [Scorer("RB", 10)]])
  {
    assert FirstMin(a["RB"]) == 1;
    var b := a["RB" := a["RB"][1 := Scorer("RB", 11)]];
    assert OccursAt("RB", Flex, 0);
    assert a["RB"][1 := Scorer("RB", 11)] == [Scorer("RB", 12), Scorer("RB", 11)];
    assert FirstMin(b[Flex]) == 0;
    assert b[Flex][0 := Scorer("RB", 10)] == [Scorer("RB", 10)];
    assert b[Flex := b[Flex][0 := Scorer("RB", 10)]]
           == map["QB" := [Scorer("QB", 12)], "RB" := [Scorer("RB", 12), Scorer("RB", 11)],
                  Flex := [Scorer("RB", 10)]];
  }
}
