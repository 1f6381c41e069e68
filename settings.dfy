/**
 * Settings derivation: the number of starters a league allows in each slot,
 * read off one sample lineup by counting the players started in each
 * non-bench slot.
 */
module SettingsDerivation {
  import opened Lineup

  /** Number of players of the lineup that were started in `slot`. */
  function CountSlot(lineup: seq<Player>, slot: string): nat
    decreases |lineup|
  {
    if lineup == [] then 0
    else CountSlot(lineup[..|lineup| - 1], slot) + (if lineup[|lineup| - 1].slotPosition == slot then 1 else 0)
  }

  lemma {:induction false} CountSlotPositive(lineup: seq<Player>, slot: string)
    ensures CountSlot(lineup, slot) > 0 <==> exists p :: p in lineup && p.slotPosition == slot
    decreases |lineup|
  {
    if lineup != [] {
      var n := |lineup| - 1;
      CountSlotPositive(lineup[..n], slot);
      if CountSlot(lineup[..n], slot) > 0 {
        var p :| p in lineup[..n] && p.slotPosition == slot;
        assert p in lineup;
      }
      forall p | p in lineup && p.slotPosition == slot && lineup[n].slotPosition != slot
        ensures p in lineup[..n]
      {
        var j :| 0 <= j < |lineup| && lineup[j] == p;
        assert j < n;
        assert lineup[..n][j] == p;
      }
    }
  }

  /**
   * The capacity map `get_lineup_settings` returns for a sample lineup: one
   * key per slot some player was started in, bench excluded (reserve is
   * counted), valued by the number of players started there.
   */
  function LineupSettings(lineup: seq<Player>): (r: Settings)
    ensures Bench !in r
    ensures forall s :: s in r ==> r[s] > 0
    ensures forall s :: s != Bench ==> Cap(r, s) == CountSlot(lineup, s)
  {
    var codes := set p | p in lineup && p.slotPosition != Bench :: p.slotPosition;
    var r := map s | s in codes :: CountSlot(lineup, s);
    assert forall s :: s in r ==> r[s] > 0 by {
      forall s | s in r ensures r[s] > 0 {
        var p :| p in lineup && p.slotPosition != Bench && p.slotPosition == s;
        CountSlotPositive(lineup, s);
      }
    }
    assert forall s :: s != Bench ==> Cap(r, s) == CountSlot(lineup, s) by {
      forall s | s != Bench ensures Cap(r, s) == CountSlot(lineup, s) {
        CountSlotPositive(lineup, s);
        if CountSlot(lineup, s) > 0 {
          var p :| p in lineup && p.slotPosition == s;
          assert s in codes;
        }
      }
    }
    r
  }

  /**
   * `get_lineup_settings`: counts, in a dictionary that starts empty, every
   * home-lineup player whose slot is not the bench.
   */
  method GetLineupSettings(homeLineup: seq<Player>) returns (posCounts: Settings)
    ensures posCounts == LineupSettings(homeLineup)
  {
    posCounts := map[];
    for i := 0 to |homeLineup|
      invariant Bench !in posCounts
      invariant forall s :: s != Bench ==> Cap(posCounts, s) == CountSlot(homeLineup[..i], s)
      invariant forall s :: s in posCounts ==> posCounts[s] > 0
    {
      assert homeLineup[..i + 1][..i] == homeLineup[..i];
      var slot := homeLineup[i].slotPosition;
      if slot != Bench {
        posCounts := posCounts[slot := Cap(posCounts, slot) + 1];
      }
    }
    assert homeLineup[..|homeLineup|] == homeLineup;
    ghost var target := LineupSettings(homeLineup);
    forall s ensures s in posCounts <==> s in target {
      if s != Bench {
        assert Cap(posCounts, s) == Cap(target, s);
      }
    }
  }
}
