/**
 * The cascading allocator (`add_to_optimal` of the web service, identical in
 * api/processor.py and api/awards.py) and the optimal score that folds it
 * over a lineup (`calc_optimal_score`).
 *
 * `Allocate` is the value-level specification of one call; `AddToOptimal`
 * is the in-place version over an `Optimal` object with its FIFO worklist,
 * proved to end in exactly the state `Allocate` describes.
 */
module Processor {
  import opened Lineup

  /** A slot the cascade may try: a settings key that is neither bench nor reserve. */
  predicate Candidate(settings: Settings, slot: string)
  {
    slot in settings && slot != Bench && slot != Reserve
  }

  ghost function Elements(q: seq<Player>): set<Player>
  {
    set x | x in q
  }

  /**
   * The worklist loop, from the point where `curr` (already taken off the
   * queue) still has to be tried at the slots `rest`, with `queue` left
   * behind it. An append ends the whole call, whatever is still queued; a
   * swap enqueues the evicted incumbent and `curr` goes on to its next
   * eligible slot.
   *
   * `m` bounds every player's points and `n` is the (unchanging) number of
   * players held; every swap raises the points held, which never exceed
   * `m * n`, so the recursion ends.
   */
  function Cascade(a: Slots, settings: Settings, curr: Player, rest: seq<string>, queue: seq<Player>,
                   ghost m: int, ghost n: int): Result<Slots>
    requires Bounded(a, m) && curr.points <= m && AtMost(queue, m) && Count(a) == n
    decreases m * n - Held(a), |queue|, |rest|
  {
    HeldAtMost(a, m);
    if rest == [] then
      if queue == [] then Ok(a)
      else Cascade(a, settings, queue[0], queue[0].eligibleSlots, queue[1..], m, n)
    else if !Candidate(settings, rest[0]) then
      Cascade(a, settings, curr, rest[1..], queue, m, n)
    else
      var slot := rest[0];
      var l := Get(a, slot);
      if |l| < settings[slot] then Ok(a[slot := l + [curr]])
      else if l == [] then Err(EmptySlot(slot))
      else
        var k := FirstMin(l);
        if curr.points > l[k].points then
          SwapRaisesHeld(a, slot, k, curr);
          BoundedSwap(a, slot, k, curr, m);
          Cascade(a[slot := l[k := curr]], settings, curr, rest[1..], queue + [l[k]], m, n)
        else
          Cascade(a, settings, curr, rest[1..], queue, m, n)
  }

  /** The worklist loop from its head: pop the next displaced player, if any. */
  function Drain(a: Slots, settings: Settings, queue: seq<Player>, ghost m: int, ghost n: int): Result<Slots>
    requires Bounded(a, m) && AtMost(queue, m) && Count(a) == n
  {
    if queue == [] then Ok(a)
    else Cascade(a, settings, queue[0], queue[0].eligibleSlots, queue[1..], m, n)
  }

  lemma BoundedSwap(a: Slots, s: string, i: nat, x: Player, m: int)
    requires Bounded(a, m) && s in a && i < |a[s]| && x.points <= m
    ensures Bounded(a[s := a[s][i := x]], m)
  {
    var b := a[s := a[s][i := x]];
    forall t | t in b ensures AtMost(b[t], m) {
      if t == s {
        assert AtMost(a[s], m);
        forall j | 0 <= j < |b[t]| ensures b[t][j].points <= m {
          if j != i { assert b[t][j] == a[s][j]; }
        }
      }
    }
  }

  lemma BoundedWeaken(a: Slots, m: int, m': int)
    requires Bounded(a, m) && m <= m'
    ensures Bounded(a, m')
  {
    forall s | s in a ensures AtMost(a[s], m') {
      assert AtMost(a[s], m);
    }
  }

  /**
   * One call of `add_to_optimal`: a negative scorer is ignored; a primary
   * slot with room takes the player at its end; otherwise the player
   * replaces the slot's first minimum scorer when strictly higher, and the
   * loser (incumbent or newcomer) starts the cascade. Taking the minimum of
   * an empty slot list fails.
   */
  function Allocate(a: Slots, settings: Settings, p: Player): (r: Result<Slots>)
    ensures p.points < 0 ==> r == Ok(a)
    ensures p.points >= 0 && |Get(a, p.position)| < Cap(settings, p.position) ==>
              r == Ok(a[p.position := Get(a, p.position) + [p]])
    ensures p.points >= 0 && Get(a, p.position) == [] && Cap(settings, p.position) == 0 ==>
              r == Err(EmptySlot(p.position))
  {
    if p.points < 0 then Ok(a)
    else
      var l := Get(a, p.position);
      if |l| < Cap(settings, p.position) then Ok(a[p.position := l + [p]])
      else if l == [] then Err(EmptySlot(p.position))
      else
        MagnitudeBounds(a);
        BoundedWeaken(a, Magnitude(a), Magnitude(a) + p.points);
        var k := FirstMin(l);
        if p.points > l[k].points then
          SwapRaisesHeld(a, p.position, k, p);
          BoundedSwap(a, p.position, k, p, Magnitude(a) + p.points);
          Drain(a[p.position := l[k := p]], settings, [l[k]], Magnitude(a) + p.points, Count(a))
        else
          Drain(a, settings, [p], Magnitude(a) + p.points, Count(a))
  }

  /** How trying one displaced player at its eligible slots ended. */
  datatype Outcome = Continue | Placed | Failed

  /**
   * The body of the worklist loop for one popped player `curr`: the `for`
   * over its eligible slots. An append ends the whole call (`Placed`); an
   * empty candidate slot list makes `min()` fail (`Failed`); otherwise the
   * loop runs to the end (`Continue`) with the evicted players appended to
   * the queue, and every swap has raised the points held.
   */
  method TryEligibleSlots(optimal: Optimal, settings: Settings, curr: Player, queue: seq<Player>,
                          ghost m: int, ghost n: int)
    returns (outcome: Outcome, q: seq<Player>)
    requires Bounded(optimal.slots, m) && curr.points <= m && AtMost(queue, m) && Count(optimal.slots) == n
    modifies optimal
    ensures outcome == Placed ==>
              Cascade(old(optimal.slots), settings, curr, curr.eligibleSlots, queue, m, n) == Ok(optimal.slots)
    ensures outcome == Failed ==>
              Cascade(old(optimal.slots), settings, curr, curr.eligibleSlots, queue, m, n).Err?
    ensures outcome == Continue ==>
              && Bounded(optimal.slots, m) && AtMost(q, m) && Count(optimal.slots) == n
              && Cascade(old(optimal.slots), settings, curr, curr.eligibleSlots, queue, m, n)
                 == Drain(optimal.slots, settings, q, m, n)
              && (Held(optimal.slots) > old(Held(optimal.slots))
                  || (Held(optimal.slots) == old(Held(optimal.slots)) && |q| == |queue|))
  {
    ghost var a0 := optimal.slots;
    q := queue;
    for j := 0 to |curr.eligibleSlots|
      invariant Bounded(optimal.slots, m) && AtMost(q, m) && Count(optimal.slots) == n
      invariant Cascade(optimal.slots, settings, curr, curr.eligibleSlots[j..], q, m, n)
                == Cascade(a0, settings, curr, curr.eligibleSlots, queue, m, n)
      invariant Held(optimal.slots) >= Held(a0)
      invariant Held(optimal.slots) == Held(a0) ==> |q| == |queue|
    {
      var pos := curr.eligibleSlots[j];
      assert curr.eligibleSlots[j..][1..] == curr.eligibleSlots[j + 1..];
      if pos in settings && pos != Bench && pos != Reserve {
        var posList := Get(optimal.slots, pos);
        if |posList| < settings[pos] {
          optimal.slots := optimal.slots[pos := posList + [curr]];
          return Placed, q;
        }
        if posList == [] {
          return Failed, q;
        }
        var minIndex := FirstMin(posList);
        var lowest := posList[minIndex];
        if curr.points > lowest.points {
          SwapRaisesHeld(optimal.slots, pos, minIndex, curr);
          BoundedSwap(optimal.slots, pos, minIndex, curr, m);
          q := q + [lowest];
          optimal.slots := optimal.slots[pos := posList[minIndex := curr]];
        }
      }
    }
    assert curr.eligibleSlots[|curr.eligibleSlots|..] == [];
    outcome := Continue;
  }

  /**
   * `add_to_optimal` on the `optimal` object: the same steps done in place,
   * with an explicit FIFO worklist. `ok` is false where `add_to_optimal`'s
   * `min()` raises.
   */
  method AddToOptimal(optimal: Optimal, settings: Settings, player: Player) returns (ok: bool)
    modifies optimal
    ensures ok == Allocate(old(optimal.slots), settings, player).Ok?
    ensures ok ==> optimal.slots == Allocate(old(optimal.slots), settings, player).value
  {
    var posList := Get(optimal.slots, player.position);
    if player.points < 0 {
      return true;
    }
    if |posList| < Cap(settings, player.position) {
      optimal.slots := optimal.slots[player.position := posList + [player]];
      return true;
    }
    if posList == [] {
      return false;
    }
    ghost var a0 := optimal.slots;
    ghost var m := Magnitude(a0) + player.points;
    ghost var n := Count(a0);
    MagnitudeBounds(a0);
    BoundedWeaken(a0, Magnitude(a0), m);
    var minIndex := FirstMin(posList);
    var lowest := posList[minIndex];
    var q: seq<Player>;
    if player.points > lowest.points {
      AllocateSwap(a0, settings, player, minIndex, m);
      q := [lowest];
      optimal.slots := optimal.slots[player.position := posList[minIndex := player]];
    } else {
      AllocateReject(a0, settings, player, m);
      q := [player];
    }
    while q != []
      invariant Bounded(optimal.slots, m) && AtMost(q, m) && Count(optimal.slots) == n
      invariant Drain(optimal.slots, settings, q, m, n) == Allocate(a0, settings, player)
      decreases m * n - Held(optimal.slots), |q|
    {
      HeldAtMost(optimal.slots, m);
      ghost var held0 := Held(optimal.slots);
      var curr := q[0];
      var outcome;
      outcome, q := TryEligibleSlots(optimal, settings, curr, q[1..], m, n);
      if outcome != Continue {
        return outcome == Placed;
      }
    }
    return true;
  }

  // ---------------------------------------------------------------------
  // What one call preserves

  /**
   * What the cascade keeps between `a` and its result `r`: the capacity
   * invariant; nothing is held in `r` that was not held in `a`, queued or
   * being tried; with no negative scorer around, the points held never go
   * down; and slots the cascade may not try are left as they were.
   */
  ghost predicate Keeps(a: Slots, settings: Settings, curr: Player, queue: seq<Player>, r: Slots)
  {
    && (Fits(a, settings) ==> Fits(r, settings))
    && Players(r) <= Players(a) + {curr} + Elements(queue)
    && (NonNegative(a) && AllNonNegative(queue) && curr.points >= 0 ==> Held(r) >= Held(a))
    && (forall s :: !Candidate(settings, s) ==> Get(r, s) == Get(a, s))
  }

  /** A swap at a full candidate slot passes what the rest of the cascade keeps back to the state before it. */
  lemma SwapKeeps(a: Slots, settings: Settings, slot: string, k: nat, curr: Player, queue: seq<Player>, r: Slots)
    requires Candidate(settings, slot) && slot in a && |a[slot]| >= settings[slot] && k < |a[slot]|
    requires curr.points > a[slot][k].points
    requires Keeps(a[slot := a[slot][k := curr]], settings, curr, queue + [a[slot][k]], r)
    ensures Keeps(a, settings, curr, queue, r)
  {
    var l := a[slot];
    var b := a[slot := l[k := curr]];
    SwapRaisesHeld(a, slot, k, curr);
    PlayersSwap(a, slot, k, curr);
    assert l[k] in a[slot];
    assert Elements(queue + [l[k]]) == Elements(queue) + {l[k]};
    if NonNegative(a) && AllNonNegative(queue) && curr.points >= 0 {
      NonNegativeSwap(a, slot, k, curr);
      assert AllNonNegative(a[slot]);
    }
    if Fits(a, settings) {
      assert Fits(b, settings);
    }
  }

  /** Along the whole cascade, what `Keeps` describes holds between the start and the result. */
  lemma {:induction false} CascadeInvariants(a: Slots, settings: Settings, curr: Player, rest: seq<string>,
                                             queue: seq<Player>, m: int, n: int)
    requires Bounded(a, m) && curr.points <= m && AtMost(queue, m) && Count(a) == n
    ensures var r := Cascade(a, settings, curr, rest, queue, m, n);
      r.Ok? ==> Keeps(a, settings, curr, queue, r.value)
    decreases m * n - Held(a), |queue|, |rest|
  {
    HeldAtMost(a, m);
    if rest == [] {
      if queue != [] {
        CascadeInvariants(a, settings, queue[0], queue[0].eligibleSlots, queue[1..], m, n);
        assert Elements(queue) == {queue[0]} + Elements(queue[1..]) by {
          assert queue == [queue[0]] + queue[1..];
        }
      }
    } else if !Candidate(settings, rest[0]) {
      CascadeInvariants(a, settings, curr, rest[1..], queue, m, n);
    } else {
      var slot := rest[0];
      var l := Get(a, slot);
      if |l| < settings[slot] {
        PlayersAppend(a, slot, curr);
        AppendRaisesHeld(a, slot, curr);
      } else if l != [] {
        var k := FirstMin(l);
        if curr.points > l[k].points {
          var b := a[slot := l[k := curr]];
          SwapRaisesHeld(a, slot, k, curr);
          BoundedSwap(a, slot, k, curr, m);
          CascadeInvariants(b, settings, curr, rest[1..], queue + [l[k]], m, n);
          var r := Cascade(b, settings, curr, rest[1..], queue + [l[k]], m, n);
          if r.Ok? {
            SwapKeeps(a, settings, slot, k, curr, queue, r.value);
          }
        } else {
          CascadeInvariants(a, settings, curr, rest[1..], queue, m, n);
        }
      }
    }
  }

  /** One call keeps the capacity invariant: no slot list outgrows its capacity. */
  lemma AllocateFits(a: Slots, settings: Settings, p: Player)
    requires Fits(a, settings)
    ensures Allocate(a, settings, p).Ok? ==> Fits(Allocate(a, settings, p).value, settings)
  {
    var l := Get(a, p.position);
    if p.points >= 0 && |l| >= Cap(settings, p.position) && l != [] {
      var m := Magnitude(a) + p.points;
      MagnitudeBounds(a);
      BoundedWeaken(a, Magnitude(a), m);
      var k := FirstMin(l);
      assert [p][1..] == [] && [l[k]][1..] == [];
      if p.points > l[k].points {
        SwapRaisesHeld(a, p.position, k, p);
        BoundedSwap(a, p.position, k, p, m);
        CascadeInvariants(a[p.position := l[k := p]], settings, l[k], l[k].eligibleSlots, [], m, Count(a));
      } else {
        CascadeInvariants(a, settings, p, p.eligibleSlots, [], m, Count(a));
      }
    }
  }

  /**
   * One call places no player but the newcomer, and the newcomer only if it
   * does not score negative points.
   */
  lemma AllocatePlayers(a: Slots, settings: Settings, p: Player)
    ensures var r := Allocate(a, settings, p);
      r.Ok? ==> Players(r.value) <= Players(a) + (if p.points >= 0 then {p} else {})
  {
    var l := Get(a, p.position);
    if p.points >= 0 && |l| < Cap(settings, p.position) {
      PlayersAppend(a, p.position, p);
    } else if p.points >= 0 && l != [] {
      var m := Magnitude(a) + p.points;
      MagnitudeBounds(a);
      BoundedWeaken(a, Magnitude(a), m);
      var k := FirstMin(l);
      assert [p][1..] == [] && [l[k]][1..] == [];
      if p.points > l[k].points {
        SwapRaisesHeld(a, p.position, k, p);
        BoundedSwap(a, p.position, k, p, m);
        CascadeInvariants(a[p.position := l[k := p]], settings, l[k], l[k].eligibleSlots, [], m, Count(a));
        PlayersSwap(a, p.position, k, p);
        assert l[k] in a[p.position];
      } else {
        CascadeInvariants(a, settings, p, p.eligibleSlots, [], m, Count(a));
      }
    }
  }

  /** With no negative scorer held before a call, none is held after it. */
  lemma AllocateNonNegative(a: Slots, settings: Settings, p: Player)
    requires NonNegative(a)
    ensures Allocate(a, settings, p).Ok? ==> NonNegative(Allocate(a, settings, p).value)
  {
    var r := Allocate(a, settings, p);
    if r.Ok? {
      AllocatePlayers(a, settings, p);
      PlayersOfNonNegative(a);
      NonNegativeOfPlayers(r.value);
    }
  }

  /** With no negative scorer held, a call never lowers the points held. */
  lemma AllocateHeldMonotone(a: Slots, settings: Settings, p: Player)
    requires NonNegative(a)
    ensures Allocate(a, settings, p).Ok? ==> Held(Allocate(a, settings, p).value) >= Held(a)
  {
    var l := Get(a, p.position);
    if p.points >= 0 && |l| < Cap(settings, p.position) {
      AppendRaisesHeld(a, p.position, p);
    } else if p.points >= 0 && l != [] {
      var m := Magnitude(a) + p.points;
      MagnitudeBounds(a);
      BoundedWeaken(a, Magnitude(a), m);
      var k := FirstMin(l);
      assert [p][1..] == [] && [l[k]][1..] == [];
      if p.points > l[k].points {
        AllocateSwapGains(a, settings, p);
      } else {
        CascadeInvariants(a, settings, p, p.eligibleSlots, [], m, Count(a));
      }
    }
  }

  /**
   * One call changes no slot other than the newcomer's primary slot and
   * the settings keys that are neither bench nor reserve.
   */
  lemma AllocateFrame(a: Slots, settings: Settings, p: Player, s: string)
    requires s != p.position && !Candidate(settings, s)
    ensures Allocate(a, settings, p).Ok? ==> Get(Allocate(a, settings, p).value, s) == Get(a, s)
  {
    var l := Get(a, p.position);
    if p.points >= 0 && |l| >= Cap(settings, p.position) && l != [] {
      var m := Magnitude(a) + p.points;
      MagnitudeBounds(a);
      BoundedWeaken(a, Magnitude(a), m);
      var k := FirstMin(l);
      assert [p][1..] == [] && [l[k]][1..] == [];
      if p.points > l[k].points {
        SwapRaisesHeld(a, p.position, k, p);
        BoundedSwap(a, p.position, k, p, m);
        CascadeInvariants(a[p.position := l[k := p]], settings, l[k], l[k].eligibleSlots, [], m, Count(a));
      } else {
        CascadeInvariants(a, settings, p, p.eligibleSlots, [], m, Count(a));
      }
    }
  }
  // ---------------------------------------------------------------------
  // When a call fails

  /**
   * With positive settings the cascade never fails: a full candidate slot
   * always has a minimum to compare with.
   */
  lemma {:induction false} CascadeNoError(a: Slots, settings: Settings, curr: Player, rest: seq<string>,
                                          queue: seq<Player>, m: int, n: int)
    requires Bounded(a, m) && curr.points <= m && AtMost(queue, m) && Count(a) == n
    requires PositiveSettings(settings)
    ensures Cascade(a, settings, curr, rest, queue, m, n).Ok?
    decreases m * n - Held(a), |queue|, |rest|
  {
    HeldAtMost(a, m);
    if rest == [] {
      if queue != [] {
        CascadeNoError(a, settings, queue[0], queue[0].eligibleSlots, queue[1..], m, n);
      }
    } else if !Candidate(settings, rest[0]) {
      CascadeNoError(a, settings, curr, rest[1..], queue, m, n);
    } else {
      var slot := rest[0];
      var l := Get(a, slot);
      if |l| >= settings[slot] {
        var k := FirstMin(l);
        if curr.points > l[k].points {
          SwapRaisesHeld(a, slot, k, curr);
          BoundedSwap(a, slot, k, curr, m);
          CascadeNoError(a[slot := l[k := curr]], settings, curr, rest[1..], queue + [l[k]], m, n);
        } else {
          CascadeNoError(a, settings, curr, rest[1..], queue, m, n);
        }
      }
    }
  }

  /**
   * Under the capacity invariant and positive settings, a call fails
   * exactly when a non-negative player's primary position is not a
   * settings key (its capacity reads as 0 and `min()` meets an empty list).
   */
  lemma AllocateFailsIff(a: Slots, settings: Settings, p: Player)
    requires Fits(a, settings) && PositiveSettings(settings)
    ensures Allocate(a, settings, p).Err? <==> p.points >= 0 && p.position !in settings
  {
    var l := Get(a, p.position);
    if p.points >= 0 && p.position in settings && |l| >= Cap(settings, p.position) {
      var m := Magnitude(a) + p.points;
      MagnitudeBounds(a);
      BoundedWeaken(a, Magnitude(a), m);
      var k := FirstMin(l);
      if p.points > l[k].points {
        SwapRaisesHeld(a, p.position, k, p);
        BoundedSwap(a, p.position, k, p, m);
        CascadeNoError(a[p.position := l[k := p]], settings, l[k], l[k].eligibleSlots, [l[k]][1..], m, Count(a));
      } else {
        CascadeNoError(a, settings, p, p.eligibleSlots, [p][1..], m, Count(a));
      }
    } else if p.points >= 0 && p.position !in settings {
      assert p.position in a ==> |a[p.position]| <= 0;
    }
  }

  // ---------------------------------------------------------------------
  // The optimal score of a lineup

  /** `add_to_optimal` folded over a lineup in order, starting from `a`. */
  function FoldFrom(a: Slots, settings: Settings, lineup: seq<Player>): Result<Slots>
    decreases |lineup|
  {
    if lineup == [] then Ok(a)
    else
      match Allocate(a, settings, lineup[0])
      case Err(e) => Err(e)
      case Ok(b) => FoldFrom(b, settings, lineup[1..])
  }

  /** The assignment `calc_optimal_score` builds from an empty one. */
  function OptimalAssignment(lineup: seq<Player>, settings: Settings): Result<Slots>
  {
    FoldFrom(map[], settings, lineup)
  }

  /** The optimal score of a lineup: the points held once every player was offered. */
  ghost function OptimalScore(lineup: seq<Player>, settings: Settings): Result<int>
  {
    match OptimalAssignment(lineup, settings)
    case Err(e) => Err(e)
    case Ok(b) => Ok(Held(b))
  }

  /**
   * `calc_optimal_score`: offers every player of the chosen side's lineup,
   * in order, to a fresh assignment, then adds up what is held.
   */
  method CalcOptimalScore(matchup: Matchup, settings: Settings, home: bool) returns (r: Result<int>)
    ensures r == OptimalScore(if home then matchup.homeLineup else matchup.awayLineup, settings)
  {
    var optimal := new Optimal();
    var lineup := if home then matchup.homeLineup else matchup.awayLineup;
    for i := 0 to |lineup|
      invariant FoldFrom(optimal.slots, settings, lineup[i..]) == FoldFrom(map[], settings, lineup)
    {
      assert lineup[i..][1..] == lineup[i + 1..];
      var ok := AddToOptimal(optimal, settings, lineup[i]);
      if !ok {
        return Err(FoldFrom(map[], settings, lineup).error);
      }
    }
    assert lineup[|lineup|..] == [];
    var optScore := TotalPoints(optimal);
    return Ok(optScore);
  }

  /**
   * Folding keeps the capacity and non-negativity invariants, never lowers
   * the points held, and holds only players offered non-negative.
   */
  lemma {:induction false} FoldInvariants(a: Slots, settings: Settings, lineup: seq<Player>)
    requires Fits(a, settings) && NonNegative(a)
    ensures var r := FoldFrom(a, settings, lineup);
      r.Ok? ==>
        && Fits(r.value, settings) && NonNegative(r.value) && Held(r.value) >= Held(a)
        && Players(r.value) <= Players(a) + (set x | x in lineup && x.points >= 0)
    decreases |lineup|
  {
    if lineup != [] {
      var p := lineup[0];
      AllocateFits(a, settings, p);
      AllocateNonNegative(a, settings, p);
      AllocateHeldMonotone(a, settings, p);
      AllocatePlayers(a, settings, p);
      var r1 := Allocate(a, settings, p);
      if r1.Ok? {
        FoldInvariants(r1.value, settings, lineup[1..]);
        assert (set x | x in lineup[1..] && x.points >= 0) <= (set x | x in lineup && x.points >= 0);
      }
    }
  }

  /**
   * The optimal score, when it exists, is the total of a feasible
   * assignment of non-negative lineup players, and so is at least 0.
   */
  lemma OptimalScoreSound(lineup: seq<Player>, settings: Settings)
    ensures var r := OptimalAssignment(lineup, settings);
      r.Ok? ==>
        && Fits(r.value, settings)
        && Players(r.value) <= (set x | x in lineup && x.points >= 0)
        && OptimalScore(lineup, settings) == Ok(Held(r.value))
        && Held(r.value) >= 0
  {
    var empty: Slots := map[];
    assert Players(empty) == {};
    assert Held(empty) == 0;
    FoldInvariants(empty, settings, lineup);
  }

  /**
   * Under the capacity invariant and positive settings, folding fails
   * exactly when some non-negative player's primary position is not a
   * settings key.
   */
  lemma {:induction false} FoldFailsIff(a: Slots, settings: Settings, lineup: seq<Player>)
    requires Fits(a, settings) && PositiveSettings(settings)
    ensures FoldFrom(a, settings, lineup).Err? <==>
              exists i :: 0 <= i < |lineup| && lineup[i].points >= 0 && lineup[i].position !in settings
    decreases |lineup|
  {
    if lineup != [] {
      var p := lineup[0];
      AllocateFailsIff(a, settings, p);
      AllocateFits(a, settings, p);
      var r1 := Allocate(a, settings, p);
      if r1.Ok? {
        FoldFailsIff(r1.value, settings, lineup[1..]);
        if exists i :: 0 <= i < |lineup| && lineup[i].points >= 0 && lineup[i].position !in settings {
          var i :| 0 <= i < |lineup| && lineup[i].points >= 0 && lineup[i].position !in settings;
          assert i > 0;
          assert lineup[1..][i - 1] == lineup[i];
        }
        if exists i :: 0 <= i < |lineup[1..]| && lineup[1..][i].points >= 0 && lineup[1..][i].position !in settings {
          var i :| 0 <= i < |lineup[1..]| && lineup[1..][i].points >= 0 && lineup[1..][i].position !in settings;
          assert lineup[i + 1] == lineup[1..][i];
        }
      }
    }
  }

  /**
   * With no settings at all (an empty sample roster) the score is not 0 in
   * general: it fails as soon as one player scores non-negative points,
   * and is 0 only when every player scored negative points.
   */
  lemma EmptySettingsScore(lineup: seq<Player>)
    ensures OptimalScore(lineup, map[]).Ok? <==> forall i :: 0 <= i < |lineup| ==> lineup[i].points < 0
    ensures OptimalScore(lineup, map[]).Ok? ==> OptimalScore(lineup, map[]).value == 0
  {
    var empty: Slots := map[];
    FoldFailsIff(empty, map[], lineup);
    OptimalScoreSound(lineup, map[]);
    var r := OptimalAssignment(lineup, map[]);
    if r.Ok? {
      forall t | t in r.value ensures r.value[t] == [] {
        assert |r.value[t]| <= Cap(map[], t);
      }
      assert Bounded(r.value, 0);
      HeldAtMost(r.value, 0);
      assert Held(r.value) == 0;
    }
  }
  // ---------------------------------------------------------------------
  // Worked cases

  function RunningBack(points: int): Player
  {
    Player("RB", "RB", points, ["RB", "FLEX"])
  }

  /**
   * Two running-back slots and one flex: 20 and 12 fill the running-back
   * slots, and 8 loses to the minimum there and cascades into the flex.
   */
  lemma ThirdRunningBackGoesToFlex()
    ensures OptimalAssignment([RunningBack(20), RunningBack(12), RunningBack(8)], map["RB" := 2, "FLEX" := 1])
            == Ok(map["RB" := [RunningBack(20), RunningBack(12)], "FLEX" := [RunningBack(8)]])
  {
    var settings: Settings := map["RB" := 2, "FLEX" := 1];
    var none: seq<Player> := [];
    var empty: Slots := map[];
    var a1: Slots := map["RB" := [RunningBack(20)]];
    var a2: Slots := map["RB" := [RunningBack(20), RunningBack(12)]];
    var a3: Slots := map["RB" := [RunningBack(20), RunningBack(12)], "FLEX" := [RunningBack(8)]];
    assert Allocate(empty, settings, RunningBack(20)) == Ok(a1) by {
      assert none + [RunningBack(20)] == [RunningBack(20)];
      assert empty["RB" := [RunningBack(20)]] == a1;
    }
    assert Allocate(a1, settings, RunningBack(12)) == Ok(a2) by {
      assert [RunningBack(20)] + [RunningBack(12)] == [RunningBack(20), RunningBack(12)];
      assert a1["RB" := a1["RB"] + [RunningBack(12)]] == a2;
    }
    var p := RunningBack(8);
    var m := Magnitude(a2) + 8;
    MagnitudeBounds(a2);
    BoundedWeaken(a2, Magnitude(a2), m);
    var n := Count(a2);
    assert FirstMin(a2["RB"]) == 1;
    assert Allocate(a2, settings, p) == Cascade(a2, settings, p, ["RB", "FLEX"], [], m, n) by {
      assert [p][1..] == [];
    }
    assert Cascade(a2, settings, p, ["RB", "FLEX"], [], m, n) == Cascade(a2, settings, p, ["FLEX"], [], m, n) by {
      assert ["RB", "FLEX"][1..] == ["FLEX"];
    }
    assert Cascade(a2, settings, p, ["FLEX"], [], m, n) == Ok(a3) by {
      assert "FLEX" !in a2;
      assert none + [p] == [p];
      assert a2["FLEX" := [p]] == a3;
    }
    var lineup := [RunningBack(20), RunningBack(12), RunningBack(8)];
    assert lineup[1..] == [RunningBack(12), RunningBack(8)];
    assert lineup[1..][1..] == [RunningBack(8)];
    assert lineup[1..][1..][1..] == [];
  }

  /**
   * The last steps of the next case: 12 has taken the flex slot and 8 is
   * queued; 8 beats neither minimum and is left out.
   */
  lemma EightLeftOut(c: Slots, m: int, n: int)
    requires c == map["RB" := [RunningBack(20), RunningBack(16)], "FLEX" := [RunningBack(12)]]
    requires Bounded(c, m) && 12 <= m && Count(c) == n
    ensures Cascade(c, map["RB" := 2, "FLEX" := 1], RunningBack(12), [], [RunningBack(8)], m, n) == Ok(c)
  {
    var settings: Settings := map["RB" := 2, "FLEX" := 1];
    var d := RunningBack(8);
    assert Cascade(c, settings, RunningBack(12), [], [d], m, n) == Cascade(c, settings, d, ["RB", "FLEX"], [], m, n) by {
      assert [d][1..] == [];
    }
    assert Cascade(c, settings, d, ["RB", "FLEX"], [], m, n) == Cascade(c, settings, d, ["FLEX"], [], m, n) by {
      assert FirstMin(c["RB"]) == 1;
      assert ["RB", "FLEX"][1..] == ["FLEX"];
    }
    assert Cascade(c, settings, d, ["FLEX"], [], m, n) == Ok(c) by {
      assert FirstMin(c["FLEX"]) == 0;
      assert ["FLEX"][1..] == [];
    }
  }

  /** The middle steps of the next case: evicted 12 skips the full running-back slots and beats 8 at flex. */
  lemma TwelveTakesFlex(b: Slots, m: int, n: int)
    requires b == map["RB" := [RunningBack(20), RunningBack(16)], "FLEX" := [RunningBack(8)]]
    requires Bounded(b, m) && 12 <= m && Count(b) == n
    ensures Bounded(b["FLEX" := [RunningBack(12)]], m) && Count(b["FLEX" := [RunningBack(12)]]) == n
    ensures Cascade(b, map["RB" := 2, "FLEX" := 1], RunningBack(12), ["RB", "FLEX"], [], m, n)
            == Cascade(b["FLEX" := [RunningBack(12)]], map["RB" := 2, "FLEX" := 1], RunningBack(12), [], [RunningBack(8)], m, n)
  {
    var settings: Settings := map["RB" := 2, "FLEX" := 1];
    var e := RunningBack(12);
    var d := RunningBack(8);
    assert b["FLEX"][0 := e] == [e];
    SwapRaisesHeld(b, "FLEX", 0, e);
    BoundedSwap(b, "FLEX", 0, e, m);
    assert Cascade(b, settings, e, ["RB", "FLEX"], [], m, n) == Cascade(b, settings, e, ["FLEX"], [], m, n) by {
      assert FirstMin(b["RB"]) == 1;
      assert ["RB", "FLEX"][1..] == ["FLEX"];
    }
    assert Cascade(b, settings, e, ["FLEX"], [], m, n) == Cascade(b["FLEX" := [e]], settings, e, [], [d], m, n) by {
      var none: seq<Player> := [];
      assert none + [d] == [d];
      assert FirstMin(b["FLEX"]) == 0;
      assert ["FLEX"][1..] == [];
    }
  }

  /**
   * A full primary slot whose lowest occupant scores less than `p`: `p`
   * takes that place and the evicted player starts the cascade.
   */
  lemma AllocateSwap(a: Slots, settings: Settings, p: Player, k: nat, m: int)
    requires p.points >= 0 && Get(a, p.position) != [] && |Get(a, p.position)| >= Cap(settings, p.position)
    requires k == FirstMin(Get(a, p.position)) && p.points > a[p.position][k].points
    requires m == Magnitude(a) + p.points
    ensures Bounded(a[p.position := a[p.position][k := p]], m) && a[p.position][k].points <= m
    ensures Count(a[p.position := a[p.position][k := p]]) == Count(a)
    ensures Allocate(a, settings, p)
            == Drain(a[p.position := a[p.position][k := p]], settings, [a[p.position][k]], m, Count(a))
            == Cascade(a[p.position := a[p.position][k := p]], settings, a[p.position][k],
                       a[p.position][k].eligibleSlots, [], m, Count(a))
  {
    MagnitudeBounds(a);
    BoundedWeaken(a, Magnitude(a), m);
    SwapRaisesHeld(a, p.position, k, p);
    BoundedSwap(a, p.position, k, p, m);
    assert AtMost(a[p.position], m);
    assert [a[p.position][k]][1..] == [];
    assert a[p.position][k].points <= m;
  }

  /**
   * A full primary slot whose lowest occupant scores at least as much as
   * `p` (ties included): the slot is kept and `p` itself starts the cascade.
   */
  lemma AllocateReject(a: Slots, settings: Settings, p: Player, m: int)
    requires p.points >= 0 && Get(a, p.position) != [] && |Get(a, p.position)| >= Cap(settings, p.position)
    requires p.points <= a[p.position][FirstMin(Get(a, p.position))].points
    requires m == Magnitude(a) + p.points
    ensures Bounded(a, m) && p.points <= m
    ensures Allocate(a, settings, p) == Drain(a, settings, [p], m, Count(a))
  {
    MagnitudeBounds(a);
    BoundedWeaken(a, Magnitude(a), m);
  }

  /**
   * Once the cascade meets a candidate slot with room, `curr` is appended
   * there and the call ends: whatever is still queued is never placed.
   */
  lemma CascadeAppendEnds(a: Slots, settings: Settings, curr: Player, rest: seq<string>, queue: seq<Player>,
                          m: int, n: int)
    requires Bounded(a, m) && curr.points <= m && AtMost(queue, m) && Count(a) == n
    requires rest != [] && Candidate(settings, rest[0]) && |Get(a, rest[0])| < settings[rest[0]]
    ensures Cascade(a, settings, curr, rest, queue, m, n) == Ok(a[rest[0] := Get(a, rest[0]) + [curr]])
  {
  }

  /**
   * The effect of an append ending the call: `curr` is added and its points
   * with it, and a queued player that was not already held is never placed.
   */
  lemma CascadeAppendDropsQueue(a: Slots, settings: Settings, curr: Player, rest: seq<string>,
                                queue: seq<Player>, m: int, n: int, x: Player)
    requires Bounded(a, m) && curr.points <= m && AtMost(queue, m) && Count(a) == n
    requires rest != [] && Candidate(settings, rest[0]) && |Get(a, rest[0])| < settings[rest[0]]
    requires x in queue && x !in Players(a) && x != curr
    ensures var r := Cascade(a, settings, curr, rest, queue, m, n);
      && r.Ok? && Held(r.value) == Held(a) + curr.points
      && Players(r.value) <= Players(a) + {curr}
      && x !in Players(r.value)
  {
    CascadeAppendEnds(a, settings, curr, rest, queue, m, n);
    AppendRaisesHeld(a, rest[0], curr);
    PlayersAppend(a, rest[0], curr);
  }

  /**
   * When a newcomer replaces the lowest scorer of its full primary slot,
   * the call gains at least the difference: whatever the evicted player's
   * cascade does afterwards never gives points back.
   */
  lemma AllocateSwapGains(a: Slots, settings: Settings, p: Player)
    requires NonNegative(a) && p.points >= 0
    requires Get(a, p.position) != [] && |Get(a, p.position)| >= Cap(settings, p.position)
    requires p.points > Get(a, p.position)[FirstMin(Get(a, p.position))].points
    ensures var l := Get(a, p.position);
      var r := Allocate(a, settings, p);
      r.Ok? ==> Held(r.value) >= Held(a) + p.points - l[FirstMin(l)].points
  {
    var l := Get(a, p.position);
    var k := FirstMin(l);
    var m := Magnitude(a) + p.points;
    AllocateSwap(a, settings, p, k, m);
    var b := a[p.position := l[k := p]];
    SwapRaisesHeld(a, p.position, k, p);
    NonNegativeSwap(a, p.position, k, p);
    assert AllNonNegative(a[p.position]);
    assert l[k].points >= 0;
    CascadeInvariants(b, settings, l[k], l[k].eligibleSlots, [], m, Count(a));
  }

  /**
   * Continuing: 16 replaces the running-back minimum 12; 12 then beats the
   * flex occupant 8, which is dropped.
   */
  lemma FlexOccupantDropped(a: Slots, settings: Settings, p: Player)
    requires a == map["RB" := [RunningBack(20), RunningBack(12)], "FLEX" := [RunningBack(8)]]
    requires settings == map["RB" := 2, "FLEX" := 1] && p == RunningBack(16)
    ensures Allocate(a, settings, p) == Ok(map["RB" := [RunningBack(20), RunningBack(16)], "FLEX" := [RunningBack(12)]])
  {
    var m := Magnitude(a) + 16;
    assert FirstMin(a["RB"]) == 1;
    AllocateSwap(a, settings, p, 1, m);
    var b := a["RB" := a["RB"][1 := p]];
    assert a["RB"][1 := p] == [RunningBack(20), RunningBack(16)];
    assert b == map["RB" := [RunningBack(20), RunningBack(16)], "FLEX" := [RunningBack(8)]];
    TwelveTakesFlex(b, m, Count(a));
    var c := b["FLEX" := [RunningBack(12)]];
    assert c == map["RB" := [RunningBack(20), RunningBack(16)], "FLEX" := [RunningBack(12)]];
    EightLeftOut(c, m, Count(a));
  }

  /**
   * The cascade steps of the next case: the evicted receiver `y` beats 3 at
   * the superflex slot, queues it, and then takes the empty flex slot too,
   * which ends the call with the 3-point player still queued.
   */
  lemma ReceiverHeldTwice(a1: Slots, settings: Settings, p: Player, y: Player, z: Player, m: int, n: int)
    requires y == Player("WR", "WR", 6, ["OP", "FLEX"]) && z == Player("QB", "OP", 3, [])
    requires a1 == map["WR" := [p], "OP" := [z]] && settings == map["WR" := 1, "OP" := 1, "FLEX" := 1]
    requires Bounded(a1, m) && 6 <= m && Count(a1) == n
    ensures Cascade(a1, settings, y, y.eligibleSlots, [], m, n) == Ok(map["WR" := [p], "OP" := [y], "FLEX" := [y]])
  {
    var none: seq<Player> := [];
    var a2 := a1["OP" := [y]];
    assert Cascade(a1, settings, y, y.eligibleSlots, [], m, n) == Cascade(a2, settings, y, ["FLEX"], [z], m, n) by {
      assert y.eligibleSlots == ["OP", "FLEX"];
      assert FirstMin(a1["OP"]) == 0;
      assert a1["OP"][0 := y] == [y];
      SwapRaisesHeld(a1, "OP", 0, y);
      BoundedSwap(a1, "OP", 0, y, m);
      assert none + [z] == [z];
      assert ["OP", "FLEX"][1..] == ["FLEX"];
    }
    SwapRaisesHeld(a1, "OP", 0, y);
    BoundedSwap(a1, "OP", 0, y, m);
    assert "FLEX" !in a2;
    CascadeAppendEnds(a2, settings, y, ["FLEX"], [z], m, n);
    assert Get(a2, "FLEX") + [y] == [y] by {
      assert none + [y] == [y];
    }
    assert a2["FLEX" := [y]] == map["WR" := [p], "OP" := [y], "FLEX" := [y]];
  }

  /**
   * After a swap the cascade keeps trying the same player at its later
   * eligible slots: here the evicted 6-point receiver beats 3 at the
   * superflex slot and then also takes the empty flex slot, so it is held
   * twice, while the 3-point player it evicted is dropped.
   */
  lemma SwappedPlayerAlsoAppended(a: Slots, settings: Settings, p: Player, y: Player, z: Player)
    requires y == Player("WR", "WR", 6, ["OP", "FLEX"]) && z == Player("QB", "OP", 3, [])
    requires p == Player("WR", "WR", 10, ["FLEX"])
    requires a == map["WR" := [y], "OP" := [z]] && settings == map["WR" := 1, "OP" := 1, "FLEX" := 1]
    ensures Allocate(a, settings, p) == Ok(map["WR" := [p], "OP" := [y], "FLEX" := [y]])
  {
    var m := Magnitude(a) + 10;
    assert FirstMin(a["WR"]) == 0;
    AllocateSwap(a, settings, p, 0, m);
    assert a["WR"][0 := p] == [p];
    var a1 := a["WR" := [p]];
    assert a1 == map["WR" := [p], "OP" := [z]];
    ReceiverHeldTwice(a1, settings, p, y, z, m, Count(a));
  }
}
