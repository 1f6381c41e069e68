/**
 * Shared vocabulary of the lineup optimiser: scored players, matchups,
 * slot-capacity maps, the slot assignment that an allocation builds, and
 * the sums and minimum search over slot lists that every allocator uses.
 */
module Lineup {

  /** Teams are opaque aggregation keys; an ordered id is enough. */
  type TeamId = nat

  /**
   * One player of a week's box score: the primary position, the slot the
   * player was actually started in, the week's points and the ordered list
   * of slot codes the player may fill.
   */
  datatype Player = Player(
    position: string,
    slotPosition: string,
    points: int,
    eligibleSlots: seq<string>)

  /** One game of a week: both teams, their reported scores and lineups. */
  datatype Matchup = Matchup(
    homeTeam: TeamId,
    awayTeam: TeamId,
    homeScore: int,
    awayScore: int,
    homeLineup: seq<Player>,
    awayLineup: seq<Player>)

  /** The failures the core can run into. */
  datatype Error =
    | EmptySlot(slot: string)   // `min` taken over an empty slot list
    | NoMatchup                  // week 1 has no matchup to derive settings from
    | EmptyRanking               // an awards lookup of element 0 of an empty ranking

  datatype Result<T> = Ok(value: T) | Err(error: Error)

  /** Slot code to number of starters; a missing code has capacity 0. */
  type Settings = map<string, nat>

  /** Slot code to the players currently assigned there; missing means empty. */
  type Slots = map<string, seq<Player>>

  const Bench := "BE"
  const Reserve := "IR"

  function Cap(settings: Settings, slot: string): nat
  {
    if slot in settings then settings[slot] else 0
  }

  function Get(a: Slots, slot: string): seq<Player>
  {
    if slot in a then a[slot] else []
  }

  /** Sum of the points of a slot list (or of a lineup). */
  function ListPoints(l: seq<Player>): int
    decreases |l|
  {
    if l == [] then 0 else ListPoints(l[..|l| - 1]) + l[|l| - 1].points
  }

  function ListSize(l: seq<Player>): int
  {
    |l|
  }

  /** Sum of the magnitudes of the points of a list, an upper bound of every entry. */
  function ListMagnitude(l: seq<Player>): int
    decreases |l|
  {
    if l == [] then 0
    else ListMagnitude(l[..|l| - 1]) + (if l[|l| - 1].points < 0 then -l[|l| - 1].points else l[|l| - 1].points)
  }

  /**
   * The index that `pos_list.index(min(pos_list, key=points))` yields: the
   * first position holding the smallest number of points.
   */
  function FirstMin(l: seq<Player>): (i: nat)
    requires l != []
    ensures i < |l|
    ensures forall j :: 0 <= j < |l| ==> l[i].points <= l[j].points
    ensures forall j :: 0 <= j < i ==> l[j].points > l[i].points
    decreases |l|
  {
    if |l| == 1 then 0
    else
      var k := FirstMin(l[1..]) + 1;
      if l[k].points < l[0].points then k else 0
  }

  ghost predicate AtMost(l: seq<Player>, m: int)
  {
    forall j :: 0 <= j < |l| ==> l[j].points <= m
  }

  ghost predicate AllNonNegative(l: seq<Player>)
  {
    forall j :: 0 <= j < |l| ==> l[j].points >= 0
  }

  /** Capacity invariant: no slot holds more players than its capacity. */
  ghost predicate Fits(a: Slots, settings: Settings)
  {
    forall s :: s in a ==> |a[s]| <= Cap(settings, s)
  }

  /** Every held player scores at most m. */
  ghost predicate Bounded(a: Slots, m: int)
  {
    forall s :: s in a ==> AtMost(a[s], m)
  }

  /** Non-negativity invariant: no held player has negative points. */
  ghost predicate NonNegative(a: Slots)
  {
    forall s :: s in a ==> AllNonNegative(a[s])
  }

  /** Every settings value is positive, as `get_lineup_settings` guarantees. */
  ghost predicate PositiveSettings(settings: Settings)
  {
    forall s :: s in settings ==> settings[s] > 0
  }

  /** The players held anywhere in an assignment. */
  ghost function Players(a: Slots): set<Player>
  {
    set s, x | s in a && x in a[s] :: x
  }

  /** Sum of f over the slot lists of an assignment, in any order. */
  ghost function SumOver(a: Slots, f: seq<Player> -> int): int
    decreases |a|
  {
    if a == map[] then 0
    else
      var k :| k in a;
      f(a[k]) + SumOver(a - {k}, f)
  }

  /** Total points held: the optimal score once an allocation is done. */
  ghost function Held(a: Slots): int
  {
    SumOver(a, ListPoints)
  }

  /** Number of players held. */
  ghost function Count(a: Slots): int
  {
    SumOver(a, ListSize)
  }

  ghost function Magnitude(a: Slots): int
  {
    SumOver(a, ListMagnitude)
  }

  // ---------------------------------------------------------------------
  // Lemmas about sums over a map

  lemma SumOverRemove(a: Slots, f: seq<Player> -> int, k: string)
    requires k in a
    ensures SumOver(a, f) == f(a[k]) + SumOver(a - {k}, f)
    decreases |a|
  {
    var j :| j in a && SumOver(a, f) == f(a[j]) + SumOver(a - {j}, f);
    if j != k {
      SumOverRemove(a - {j}, f, k);
      SumOverRemove(a - {k}, f, j);
      assert a - {j} - {k} == a - {k} - {j};
    }
  }

  /** Replacing (or adding) one slot list changes the sum by the difference. */
  lemma SumOverUpdate(a: Slots, f: seq<Player> -> int, k: string, v: seq<Player>)
    ensures SumOver(a[k := v], f) == SumOver(a, f) - (if k in a then f(a[k]) else 0) + f(v)
  {
    SumOverRemove(a[k := v], f, k);
    assert a[k := v] - {k} == a - {k};
    if k in a {
      SumOverRemove(a, f, k);
    } else {
      assert a - {k} == a;
    }
  }

  lemma {:induction false} SumOverNonNegative(a: Slots, f: seq<Player> -> int)
    requires forall s :: s in a ==> f(a[s]) >= 0
    ensures SumOver(a, f) >= 0
    decreases |a|
  {
    if a != map[] {
      var k :| k in a;
      SumOverRemove(a, f, k);
      SumOverNonNegative(a - {k}, f);
    }
  }

  // ---------------------------------------------------------------------
  // Lemmas about slot lists

  lemma {:induction false} ListPointsAppend(l: seq<Player>, p: Player)
    ensures ListPoints(l + [p]) == ListPoints(l) + p.points
  {
    assert (l + [p])[..|l + [p]| - 1] == l;
  }

  /** Overwriting entry i with x changes the list's points by the difference. */
  lemma {:induction false} ListPointsUpdate(l: seq<Player>, i: nat, x: Player)
    requires i < |l|
    ensures ListPoints(l[i := x]) == ListPoints(l) - l[i].points + x.points
    decreases |l|
  {
    var n := |l| - 1;
    if i < n {
      assert l[i := x][..n] == l[..n][i := x];
      ListPointsUpdate(l[..n], i, x);
    } else {
      assert l[i := x][..n] == l[..n];
    }
  }

  lemma {:induction false} ListPointsNonNegative(l: seq<Player>)
    requires AllNonNegative(l)
    ensures ListPoints(l) >= 0
    decreases |l|
  {
    if l != [] {
      ListPointsNonNegative(l[..|l| - 1]);
    }
  }

  lemma {:induction false} ListMagnitudeBounds(l: seq<Player>)
    ensures ListMagnitude(l) >= 0
    ensures AtMost(l, ListMagnitude(l))
    decreases |l|
  {
    if l != [] {
      var n := |l| - 1;
      ListMagnitudeBounds(l[..n]);
      forall j | 0 <= j < n ensures l[j].points <= ListMagnitude(l) {
        assert l[..n][j] == l[j];
      }
    }
  }

  lemma {:induction false} ListPointsAtMost(l: seq<Player>, m: int)
    requires AtMost(l, m)
    ensures ListPoints(l) <= m * |l|
    decreases |l|
  {
    if l != [] {
      var n := |l| - 1;
      assert AtMost(l[..n], m) by {
        forall j | 0 <= j < n ensures l[..n][j].points <= m {
          assert l[..n][j] == l[j];
        }
      }
      ListPointsAtMost(l[..n], m);
    }
  }

  // ---------------------------------------------------------------------
  // Lemmas about whole assignments

  /** The points held never exceed the bound times the number of players held. */
  lemma {:induction false} HeldAtMost(a: Slots, m: int)
    requires Bounded(a, m)
    ensures Held(a) <= m * Count(a)
    decreases |a|
  {
    if a != map[] {
      var k :| k in a;
      SumOverRemove(a, ListPoints, k);
      SumOverRemove(a, ListSize, k);
      ListPointsAtMost(a[k], m);
      assert Bounded(a - {k}, m);
      HeldAtMost(a - {k}, m);
      var x, y := |a[k]|, Count(a - {k});
      assert Count(a) == x + y;
      assert Held(a) <= m * x + m * y;
      Distribute(m, x, y);
    }
  }

  lemma Distribute(m: int, x: int, y: int)
    ensures m * x + m * y == m * (x + y)
  {
  }

  /** Every held player scores at most the magnitude sum of the assignment. */
  lemma {:induction false} MagnitudeBounds(a: Slots)
    ensures Magnitude(a) >= 0
    ensures Bounded(a, Magnitude(a))
    decreases |a|
  {
    if a != map[] {
      var k :| k in a;
      SumOverRemove(a, ListMagnitude, k);
      MagnitudeBounds(a - {k});
      ListMagnitudeBounds(a[k]);
      forall s | s in a ensures AtMost(a[s], Magnitude(a)) {
        if s != k {
          assert AtMost((a - {k})[s], Magnitude(a - {k}));
        }
      }
    }
  }

  lemma HeldNonNegative(a: Slots)
    requires NonNegative(a)
    ensures Held(a) >= 0
  {
    forall s | s in a ensures ListPoints(a[s]) >= 0 {
      ListPointsNonNegative(a[s]);
    }
    SumOverNonNegative(a, ListPoints);
  }

  /** Swapping in a higher scorer at one index: points rise, the count stays. */
  lemma SwapRaisesHeld(a: Slots, s: string, i: nat, x: Player)
    requires s in a && i < |a[s]|
    ensures Held(a[s := a[s][i := x]]) == Held(a) - a[s][i].points + x.points
    ensures Count(a[s := a[s][i := x]]) == Count(a)
  {
    SumOverUpdate(a, ListPoints, s, a[s][i := x]);
    SumOverUpdate(a, ListSize, s, a[s][i := x]);
    ListPointsUpdate(a[s], i, x);
  }

  /** Appending one player to a slot list: points rise by its points, count by one. */
  lemma AppendRaisesHeld(a: Slots, s: string, x: Player)
    ensures Held(a[s := Get(a, s) + [x]]) == Held(a) + x.points
    ensures Count(a[s := Get(a, s) + [x]]) == Count(a) + 1
  {
    SumOverUpdate(a, ListPoints, s, Get(a, s) + [x]);
    SumOverUpdate(a, ListSize, s, Get(a, s) + [x]);
    ListPointsAppend(Get(a, s), x);
    if s !in a {
      assert Get(a, s) + [x] == [x];
      assert ListPoints([x]) == ListPoints([]) + x.points by { ListPointsAppend([], x); }
    }
  }

  lemma PlayersSwap(a: Slots, s: string, i: nat, x: Player)
    requires s in a && i < |a[s]|
    ensures Players(a[s := a[s][i := x]]) <= Players(a) + {x}
  {
    var b := a[s := a[s][i := x]];
    forall y | y in Players(b) ensures y in Players(a) + {x} {
      var t :| t in b && y in b[t];
      if t == s {
        var j :| 0 <= j < |b[t]| && b[t][j] == y;
        if j != i {
          assert a[s][j] == y;
          assert y in a[s];
        } else {
          assert y == x;
        }
      } else {
        assert y in a[t];
      }
    }
  }

  lemma PlayersAppend(a: Slots, s: string, x: Player)
    ensures Players(a[s := Get(a, s) + [x]]) <= Players(a) + {x}
  {
    var b := a[s := Get(a, s) + [x]];
    forall y | y in Players(b) ensures y in Players(a) + {x} {
      var t :| t in b && y in b[t];
      if t == s {
        var j :| 0 <= j < |b[t]| && b[t][j] == y;
        if j < |Get(a, s)| {
          assert s in a && a[s][j] == y;
          assert y in a[s];
        } else {
          assert b[t] == Get(a, s) + [x];
          assert y == x;
        }
      } else {
        assert y in a[t];
      }
    }
  }

  lemma NonNegativeOfPlayers(a: Slots)
    requires forall x :: x in Players(a) ==> x.points >= 0
    ensures NonNegative(a)
  {
    forall s, j | s in a && 0 <= j < |a[s]| ensures a[s][j].points >= 0 {
      assert a[s][j] in a[s];
      assert a[s][j] in Players(a);
    }
  }

  lemma NonNegativeSwap(a: Slots, s: string, i: nat, x: Player)
    requires NonNegative(a) && s in a && i < |a[s]| && x.points >= 0
    ensures NonNegative(a[s := a[s][i := x]])
  {
    var b := a[s := a[s][i := x]];
    forall t | t in b ensures AllNonNegative(b[t]) {
      if t == s {
        assert AllNonNegative(a[s]);
        forall j | 0 <= j < |b[t]| ensures b[t][j].points >= 0 {
          if j != i { assert b[t][j] == a[s][j]; }
        }
      }
    }
  }

  lemma NonNegativeAppend(a: Slots, s: string, x: Player)
    requires NonNegative(a) && x.points >= 0
    ensures NonNegative(a[s := Get(a, s) + [x]])
  {
    var b := a[s := Get(a, s) + [x]];
    forall t | t in b ensures AllNonNegative(b[t]) {
      if t == s {
        assert s in a ==> AllNonNegative(a[s]);
        forall j | 0 <= j < |b[t]| ensures b[t][j].points >= 0 {
          if j < |Get(a, s)| { assert b[t][j] == a[s][j]; }
        }
      }
    }
  }

  lemma PlayersOfNonNegative(a: Slots)
    requires NonNegative(a)
    ensures forall x :: x in Players(a) ==> x.points >= 0
  {
    forall x | x in Players(a) ensures x.points >= 0 {
      var s :| s in a && x in a[s];
      assert AllNonNegative(a[s]);
      var j :| 0 <= j < |a[s]| && a[s][j] == x;
    }
  }

  // ---------------------------------------------------------------------
  // The assignment object

  /**
   * The `optimal` dictionary of one allocation: a slot code's list of
   * players, updated in place by the allocators.
   */
  class Optimal {
    var slots: Slots

    constructor ()
      ensures slots == map[]
    {
      slots := map[];
    }
  }

  /**
   * The final summation of `calc_optimal_score`: adds up the points of every
   * player in every slot list.
   */
  method TotalPoints(opt: Optimal) returns (score: int)
    ensures score == Held(opt.slots)
  {
    score := 0;
    var rest := opt.slots;
    while rest != map[]
      invariant score + Held(rest) == Held(opt.slots)
      decreases |rest|
    {
      var slot :| slot in rest;
      var lst := rest[slot];
      var sub := 0;
      for j := 0 to |lst|
        invariant sub == ListPoints(lst[..j])
      {
        assert lst[..j + 1][..j] == lst[..j];
        sub := sub + lst[j].points;
      }
      assert lst[..|lst|] == lst;
      SumOverRemove(rest, ListPoints, slot);
      score := score + sub;
      rest := rest - {slot};
    }
  }
}
