/**
 * The goals and assists listings (each tally sorted by descending count)
 * and the MVP of the end command: every player whose goals plus assists
 * reach the maximum over everyone in either tally.
 */
module Leaderboards {
  import opened Tallies

  /** Goals plus assists of one player: scorers.get(p, 0) + playmakers.get(p, 0). */
  function Score(goals: Tally, assists: Tally, player: string): nat
  {
    Count(goals, player) + Count(assists, player)
  }

  /** Everyone in either tally. */
  function Players(goals: Tally, assists: Tally): set<string>
  {
    goals.Keys + assists.Keys
  }

  /** best is the largest score over the players, or 0 when there are none. */
  ghost predicate IsBest(goals: Tally, assists: Tally, best: nat)
  {
    && (forall p :: p in Players(goals, assists) ==> Score(goals, assists, p) <= best)
    && (Players(goals, assists) == {} ==> best == 0)
    && (Players(goals, assists) != {} ==> exists p :: p in Players(goals, assists) && Score(goals, assists, p) == best)
  }

  /**
   * max_mvp and the MVP list. Python lists the MVPs in set iteration
   * order; the model returns them as a set.
   */
  method Mvp(goals: Tally, assists: Tally) returns (mvps: set<string>, best: nat)
    ensures IsBest(goals, assists, best)
    ensures mvps == set p | p in Players(goals, assists) && Score(goals, assists, p) == best
    ensures mvps == {} <==> Players(goals, assists) == {}
    ensures Positive(goals) && Positive(assists) && Players(goals, assists) != {} ==> best >= 1
  {
    var players := Players(goals, assists);
    best := 0;
    var rest := players;
    while rest != {}
      invariant rest <= players
      invariant forall p :: p in players - rest ==> Score(goals, assists, p) <= best
      invariant players - rest == {} ==> best == 0
      invariant players - rest != {} ==> exists p :: p in players - rest && Score(goals, assists, p) == best
      decreases |rest|
    {
      var p :| p in rest;
      if Score(goals, assists, p) > best {
        best := Score(goals, assists, p);
      }
      rest := rest - {p};
    }
    mvps := set p | p in players && Score(goals, assists, p) == best;
    if players != {} {
      var q :| q in players && Score(goals, assists, q) == best;
      assert q in mvps;
      if Positive(goals) && Positive(assists) {
        assert Score(goals, assists, q) >= 1;
      }
    }
  }

  /** Among the names in among, one with the largest count. */
  lemma {:induction false} TopExists(t: Tally, among: set<string>)
    requires among != {} && among <= t.Keys
    ensures exists n :: n in among && forall m :: m in among ==> t[m] <= t[n]
  {
    var k :| k in among;
    var others := among - {k};
    if others == {} {
      assert among == {k};
    } else {
      TopExists(t, others);
      var n :| n in others && forall m :: m in others ==> t[m] <= t[n];
      if t[k] > t[n] {
        assert forall m :: m in among ==> t[m] <= t[k];
      } else {
        assert forall m :: m in among ==> t[m] <= t[n];
      }
    }
  }

  /** Each entry of r is a listed name with its count. */
  ghost predicate Entries(t: Tally, r: seq<(string, nat)>, listed: set<string>)
  {
    listed <= t.Keys && forall i :: 0 <= i < |r| ==> r[i].0 in listed && t[r[i].0] == r[i].1
  }

  /** Each listed name has an entry in r. */
  ghost predicate Covers(r: seq<(string, nat)>, listed: set<string>)
  {
    forall n :: n in listed ==> exists i :: 0 <= i < |r| && r[i].0 == n
  }

  ghost predicate Distinct(r: seq<(string, nat)>)
  {
    forall i, j :: 0 <= i < j < |r| ==> r[i].0 != r[j].0
  }

  ghost predicate NonIncreasing(r: seq<(string, nat)>)
  {
    forall i, j :: 0 <= i < j < |r| ==> r[i].1 >= r[j].1
  }

  /** No entry of r counts less than a name not yet listed. */
  ghost predicate Above(t: Tally, r: seq<(string, nat)>, listed: set<string>)
  {
    forall i, n :: 0 <= i < |r| && n in t && n !in listed ==> r[i].1 >= t[n]
  }

  /** top has a largest count among the names not yet listed. */
  predicate IsTop(t: Tally, listed: set<string>, top: string)
  {
    top in t && top !in listed && forall m :: m in t && m !in listed ==> t[m] <= t[top]
  }

  lemma TopOf(t: Tally, listed: set<string>)
    requires t.Keys - listed != {}
    ensures exists top :: IsTop(t, listed, top)
  {
    TopExists(t, t.Keys - listed);
    var n :| n in t.Keys - listed && forall m :: m in t.Keys - listed ==> t[m] <= t[n];
    assert IsTop(t, listed, n);
  }

  lemma EntriesStep(t: Tally, r: seq<(string, nat)>, listed: set<string>, top: string)
    requires Entries(t, r, listed) && IsTop(t, listed, top)
    ensures Entries(t, r + [(top, t[top])], listed + {top})
  {
  }

  lemma CoversStep(r: seq<(string, nat)>, listed: set<string>, top: string, count: nat)
    requires Covers(r, listed)
    ensures Covers(r + [(top, count)], listed + {top})
  {
    var r' := r + [(top, count)];
    forall n | n in listed + {top}
      ensures exists i :: 0 <= i < |r'| && r'[i].0 == n
    {
      if n == top {
        assert r'[|r|].0 == n;
      } else {
        var i :| 0 <= i < |r| && r[i].0 == n;
        assert r'[i].0 == n;
      }
    }
  }

  lemma DistinctStep(t: Tally, r: seq<(string, nat)>, listed: set<string>, top: string)
    requires Entries(t, r, listed) && Distinct(r) && top in t && top !in listed
    ensures Distinct(r + [(top, t[top])])
  {
  }

  lemma OrderStep(t: Tally, r: seq<(string, nat)>, listed: set<string>, top: string)
    requires NonIncreasing(r) && Above(t, r, listed) && IsTop(t, listed, top)
    ensures NonIncreasing(r + [(top, t[top])])
    ensures Above(t, r + [(top, t[top])], listed + {top})
  {
  }

  /** What the ranking loop keeps: r ranks the listed names and none ranks below an unlisted one. */
  ghost predicate Ranked(t: Tally, r: seq<(string, nat)>, listed: set<string>)
  {
    Entries(t, r, listed) && Covers(r, listed) && Distinct(r) && NonIncreasing(r) && Above(t, r, listed)
  }

  lemma RankStep(t: Tally, r: seq<(string, nat)>, listed: set<string>, top: string)
    requires Ranked(t, r, listed) && IsTop(t, listed, top)
    ensures Ranked(t, r + [(top, t[top])], listed + {top})
  {
    EntriesStep(t, r, listed, top);
    CoversStep(r, listed, top, t[top]);
    DistinctStep(t, r, listed, top);
    OrderStep(t, r, listed, top);
  }

  lemma Shrinks(keys: set<string>, listed: set<string>, top: string)
    requires top in keys && top !in listed
    ensures |keys - (listed + {top})| < |keys - listed|
  {
    assert keys - (listed + {top}) == (keys - listed) - {top};
  }

  /** A name with the largest count among those not yet listed. */
  method PickTop(t: Tally, listed: set<string>) returns (top: string)
    requires t.Keys - listed != {}
    ensures IsTop(t, listed, top)
  {
    TopOf(t, listed);
    top :| IsTop(t, listed, top);
  }

  /**
   * sorted(tally.items(), key=lambda x: -x[1]): every (name, count) pair of
   * the tally exactly once, counts non-increasing. The listing is empty
   * exactly when the tally is (the "no goals" reply).
   */
  method Ranking(t: Tally) returns (r: seq<(string, nat)>)
    ensures forall i :: 0 <= i < |r| ==> r[i].0 in t && t[r[i].0] == r[i].1
    ensures forall n :: n in t ==> exists i :: 0 <= i < |r| && r[i].0 == n
    ensures forall i, j :: 0 <= i < j < |r| ==> r[i].0 != r[j].0
    ensures forall i, j :: 0 <= i < j < |r| ==> r[i].1 >= r[j].1
    ensures r == [] <==> t == map[]
  {
    r := [];
    var listed: set<string> := {};
    while t.Keys - listed != {}
      invariant Ranked(t, r, listed)
      decreases |t.Keys - listed|
    {
      var top := PickTop(t, listed);
      Shrinks(t.Keys, listed, top);
      RankStep(t, r, listed, top);
      r := r + [(top, t[top])];
      listed := listed + {top};
    }
    RankDone(t, r, listed);
  }

  lemma RankDone(t: Tally, r: seq<(string, nat)>, listed: set<string>)
    requires Ranked(t, r, listed) && t.Keys - listed == {}
    ensures forall i :: 0 <= i < |r| ==> r[i].0 in t && t[r[i].0] == r[i].1
    ensures forall n :: n in t ==> exists i :: 0 <= i < |r| && r[i].0 == n
    ensures forall i, j :: 0 <= i < j < |r| ==> r[i].0 != r[j].0
    ensures forall i, j :: 0 <= i < j < |r| ==> r[i].1 >= r[j].1
    ensures r == [] <==> t == map[]
  {
    forall n | n in t
      ensures exists i :: 0 <= i < |r| && r[i].0 == n
    {
      assert n !in t.Keys - listed;
    }
    if r != [] {
      assert r[0].0 in t;
    }
  }
}
