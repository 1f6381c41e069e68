/**
 * Rankings: a per-team total, listed as (team, total) items by
 * `sorted(items, key=(total, team))`, ascending or reversed.
 */
module Ranking {
  import opened Lineup

  type Standing = (TeamId, int)

  /**
   * The strict order of the sort key (total, team); reversed when
   * `descending`. Team ids are distinct, so this orders any two items of
   * one ranking.
   */
  predicate Before(x: Standing, y: Standing, descending: bool)
  {
    if descending then x.1 > y.1 || (x.1 == y.1 && x.0 > y.0)
    else x.1 < y.1 || (x.1 == y.1 && x.0 < y.0)
  }

  predicate Ordered(r: seq<Standing>, descending: bool)
  {
    forall i, j :: 0 <= i < j < |r| ==> Before(r[i], r[j], descending)
  }

  /** `r` lists exactly the items of `m`: every item once, nothing else. */
  ghost predicate ItemsOf(r: seq<Standing>, m: map<TeamId, int>)
  {
    && (forall i :: 0 <= i < |r| ==> r[i].0 in m && r[i].1 == m[r[i].0])
    && (forall t :: t in m ==> (t, m[t]) in r)
  }

  /** `t` comes before every other team of `m`. */
  ghost predicate First(m: map<TeamId, int>, t: TeamId, descending: bool)
  {
    t in m && forall u :: u in m && u != t ==> Before((t, m[t]), (u, m[u]), descending)
  }

  lemma BeforeTransitive(x: Standing, y: Standing, z: Standing, descending: bool)
    requires Before(x, y, descending) && Before(y, z, descending)
    ensures Before(x, z, descending)
  {
  }

  lemma {:induction false} FirstExists(m: map<TeamId, int>, descending: bool)
    requires m != map[]
    ensures exists t :: First(m, t, descending)
    decreases |m|
  {
    var k :| k in m;
    var rest := m - {k};
    if rest == map[] {
      forall u | u in m ensures u == k {
        assert u !in rest;
      }
      assert First(m, k, descending);
    } else {
      FirstExists(rest, descending);
      var t :| First(rest, t, descending);
      if Before((k, m[k]), (t, m[t]), descending) {
        forall u | u in m && u != k ensures Before((k, m[k]), (u, m[u]), descending) {
          assert u in rest;
          if u != t {
            BeforeTransitive((k, m[k]), (t, m[t]), (u, m[u]), descending);
          }
        }
        assert First(m, k, descending);
      } else {
        forall u | u in m && u != t ensures Before((t, m[t]), (u, m[u]), descending) {
          if u != k {
            assert u in rest;
          }
        }
        assert First(m, t, descending);
      }
    }
  }

  /** At most one team comes first. */
  lemma FirstUnique(m: map<TeamId, int>, t: TeamId, u: TeamId, descending: bool)
    requires First(m, t, descending) && First(m, u, descending)
    ensures t == u
  {
  }

  /** Putting the first team in front of an ordered list of the other items orders all of them. */
  lemma ConsFirst(m: map<TeamId, int>, t: TeamId, rest: seq<Standing>, descending: bool)
    requires First(m, t, descending) && ItemsOf(rest, m - {t}) && Ordered(rest, descending)
    ensures ItemsOf([(t, m[t])] + rest, m)
    ensures Ordered([(t, m[t])] + rest, descending)
  {
    var r := [(t, m[t])] + rest;
    forall i | 0 <= i < |r| ensures r[i].0 in m && r[i].1 == m[r[i].0] {
      if i > 0 { assert r[i] == rest[i - 1]; }
    }
    forall u | u in m ensures (u, m[u]) in r {
      if u != t {
        assert u in m - {t};
        assert (u, (m - {t})[u]) in rest;
      }
    }
    forall i, j | 0 <= i < j < |r| ensures Before(r[i], r[j], descending) {
      assert r[j] == rest[j - 1];
      if i > 0 {
        assert r[i] == rest[i - 1];
      } else {
        assert r[j].0 in m - {t};
      }
    }
  }

  /** An ordered list of the items starts with the first team, followed by an ordered list of the others. */
  lemma SplitFirst(m: map<TeamId, int>, r: seq<Standing>, descending: bool)
    requires m != map[] && ItemsOf(r, m) && Ordered(r, descending)
    ensures r != [] && First(m, r[0].0, descending) && r[0] == (r[0].0, m[r[0].0])
    ensures ItemsOf(r[1..], m - {r[0].0}) && Ordered(r[1..], descending)
  {
    var k :| k in m;
    assert (k, m[k]) in r;
    var t := r[0].0;
    forall u | u in m && u != t ensures Before((t, m[t]), (u, m[u]), descending) {
      var j :| 0 <= j < |r| && r[j] == (u, m[u]);
    }
    var rest := m - {t};
    forall i | 0 <= i < |r[1..]| ensures r[1..][i].0 in rest && r[1..][i].1 == rest[r[1..][i].0] {
      assert r[1..][i] == r[i + 1];
      assert Before(r[0], r[i + 1], descending);
    }
    forall u | u in rest ensures (u, rest[u]) in r[1..] {
      var j :| 0 <= j < |r| && r[j] == (u, m[u]);
      assert j != 0;
      assert r[1..][j - 1] == r[j];
    }
    forall i, j | 0 <= i < j < |r[1..]| ensures Before(r[1..][i], r[1..][j], descending) {
      assert r[1..][i] == r[i + 1] && r[1..][j] == r[j + 1];
    }
  }

  /**
   * What `sorted(d.items(), key=lambda kv: (kv[1], kv[0]), reverse=descending)`
   * returns: the items, first team first.
   */
  ghost function Rank(m: map<TeamId, int>, descending: bool): (r: seq<Standing>)
    ensures |r| == |m|
    ensures ItemsOf(r, m)
    ensures Ordered(r, descending)
    decreases |m|
  {
    if m == map[] then []
    else
      FirstExists(m, descending);
      var t :| First(m, t, descending);
      var rest := Rank(m - {t}, descending);
      ConsFirst(m, t, rest, descending);
      [(t, m[t])] + rest
  }

  lemma ItemsHead(m: map<TeamId, int>, r: seq<Standing>)
    requires ItemsOf(r, m)
    ensures r != [] ==> r[0].0 in m
  {
  }

  lemma SameHeadSameTail(r: seq<Standing>, s: seq<Standing>)
    requires r != [] && s != [] && r[0] == s[0] && r[1..] == s[1..]
    ensures r == s
  {
    assert r == [r[0]] + r[1..];
    assert s == [s[0]] + s[1..];
  }

  /** Two ordered lists of the same items are equal. */
  lemma {:induction false} OrderedItemsUnique(m: map<TeamId, int>, descending: bool, r: seq<Standing>, s: seq<Standing>)
    requires ItemsOf(r, m) && Ordered(r, descending)
    requires ItemsOf(s, m) && Ordered(s, descending)
    ensures r == s
    decreases |m|
  {
    if m == map[] {
      ItemsHead(m, r);
      ItemsHead(m, s);
    } else {
      SplitFirst(m, r, descending);
      SplitFirst(m, s, descending);
      FirstUnique(m, r[0].0, s[0].0, descending);
      var rest := m - {r[0].0};
      var r', s' := r[1..], s[1..];
      OrderedItemsUnique(rest, descending, r', s');
      SameHeadSameTail(r, s);
    }
  }

  /**
   * The ranking is the only ordered list of the items: whatever sorting
   * algorithm produces an ordered list of exactly these items produces it.
   */
  lemma RankUnique(m: map<TeamId, int>, descending: bool, r: seq<Standing>)
    requires ItemsOf(r, m) && Ordered(r, descending)
    ensures r == Rank(m, descending)
  {
    OrderedItemsUnique(m, descending, r, Rank(m, descending));
  }

  /** The head of a non-empty ranking has the best total, and wins ties by team id. */
  lemma RankHead(m: map<TeamId, int>, descending: bool)
    requires m != map[]
    ensures Rank(m, descending) != []
    ensures var h := Rank(m, descending)[0];
      h.0 in m && h.1 == m[h.0] &&
      forall t :: t in m && t != h.0 ==> Before(h, (t, m[t]), descending)
  {
    var r := Rank(m, descending);
    var k :| k in m;
    assert (k, m[k]) in r;
    forall t | t in m && t != r[0].0 ensures Before(r[0], (t, m[t]), descending) {
      var j :| 0 <= j < |r| && r[j] == (t, m[t]);
    }
  }
}
