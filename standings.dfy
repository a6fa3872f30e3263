/**
 * The table command: the teams_stats fold over the stored matches, the
 * stable sort by (-Pts, -GD, -GF), and the rows it shows.
 */
module Standings {
  import opened Wrappers
  import opened Matches

  /** One entry of a team's form list. */
  datatype Outcome = Won | Drawn | Lost

  /** {"P", "W", "D", "L", "GF", "GA", "Pts", "form"} of one team. */
  datatype Stats = Stats(played: nat, won: nat, drawn: nat, lost: nat,
                         goalsFor: nat, goalsAgainst: nat, points: nat, form: seq<Outcome>)

  /** One item of teams_stats, in the dict's insertion order. */
  datatype Row = Row(team: string, stats: Stats)

  /** The record a team gets when it is first seen. */
  const Fresh := Stats(0, 0, 0, 0, 0, 0, 0, [])

  function TeamsOf(rows: seq<Row>): seq<string>
  {
    if rows == [] then [] else TeamsOf(rows[..|rows| - 1]) + [rows[|rows| - 1].team]
  }

  lemma {:induction false} TeamsOfSpec(rows: seq<Row>)
    ensures |TeamsOf(rows)| == |rows|
    ensures forall i :: 0 <= i < |rows| ==> TeamsOf(rows)[i] == rows[i].team
  {
    if rows != [] {
      TeamsOfSpec(rows[..|rows| - 1]);
    }
  }

  /** The position of a team's row: the first row with that team. */
  function Find(teams: seq<string>, team: string): (r: Option<nat>)
    ensures r.Some? ==> r.value < |teams| && teams[r.value] == team
    ensures r.None? <==> team !in teams
  {
    if teams == [] then None
    else if teams[0] == team then Some(0)
    else match Find(teams[1..], team)
      case None => None
      case Some(k) => Some(k + 1)
  }

  /** `if t not in teams_stats: teams_stats[t] = {...}`: a new team goes at the end. */
  function Ensure(rows: seq<Row>, team: string): seq<Row>
  {
    if team in TeamsOf(rows) then rows else rows + [Row(team, Fresh)]
  }

  /** Points an outcome is worth. */
  function PointsFor(o: Outcome): nat
  {
    match o
    case Won => 3
    case Drawn => 1
    case Lost => 0
  }

  /** One team's side of one match: P += 1, GF/GA += the scores, one of W/D/L += 1, Pts, and the form entry. */
  function Record(s: Stats, scored: nat, conceded: nat, o: Outcome): Stats
  {
    Stats(s.played + 1,
          s.won + (if o == Won then 1 else 0),
          s.drawn + (if o == Drawn then 1 else 0),
          s.lost + (if o == Lost then 1 else 0),
          s.goalsFor + scored, s.goalsAgainst + conceded,
          s.points + PointsFor(o), s.form + [o])
  }

  /** Applies Record to the row of team, which must be in the table; rows keep their teams and order. */
  function Apply(rows: seq<Row>, team: string, scored: nat, conceded: nat, o: Outcome): (r: seq<Row>)
    requires team in TeamsOf(rows)
  {
    TeamsOfSpec(rows);
    var i := Find(TeamsOf(rows), team).value;
    rows[i := Row(team, Record(rows[i].stats, scored, conceded, o))]
  }

  /** One team's side of one match: the team, its goals and its outcome. */
  datatype Side = Side(team: string, goals: nat, outcome: Outcome)

  /**
   * The two sides of a match in the order the table loop records them:
   * the winner's before the loser's (so team2's first when team2 won)
   * and, on a draw, team1's before team2's.
   */
  function Sides(m: Match): (r: (Side, Side))
    ensures || (r.0 == Side(m.team1, m.score1, r.0.outcome) && r.1 == Side(m.team2, m.score2, r.1.outcome))
            || (r.0 == Side(m.team2, m.score2, r.0.outcome) && r.1 == Side(m.team1, m.score1, r.1.outcome))
    ensures r.0.outcome == Won <==> m.score1 != m.score2
    ensures r.0.outcome == Won ==> r.1.outcome == Lost && r.0.goals > r.1.goals
    ensures r.0.outcome != Won ==> r.0.outcome == r.1.outcome == Drawn
  {
    if m.score1 > m.score2 then (Side(m.team1, m.score1, Won), Side(m.team2, m.score2, Lost))
    else if m.score1 < m.score2 then (Side(m.team2, m.score2, Won), Side(m.team1, m.score1, Lost))
    else (Side(m.team1, m.score1, Drawn), Side(m.team2, m.score2, Drawn))
  }

  /**
   * One iteration of the table loop: both teams get a row if they have
   * none, then both sides are recorded in the order Sides gives. When
   * team1 == team2 both sides land on the same row.
   */
  function ApplyMatch(rows: seq<Row>, m: Match): seq<Row>
  {
    EnsureSides(rows, m);
    Both(Ensure(Ensure(rows, m.team1), m.team2), Sides(m).0, Sides(m).1)
  }

  lemma EnsureSides(rows: seq<Row>, m: Match)
    ensures Sides(m).0.team in TeamsOf(Ensure(Ensure(rows, m.team1), m.team2))
    ensures Sides(m).1.team in TeamsOf(Ensure(Ensure(rows, m.team1), m.team2))
  {
    EnsureKeeps(rows, m.team1, m.team2);
  }

  /** Records the first side, then the second, each conceding the other's goals. */
  function Both(rows: seq<Row>, first: Side, second: Side): seq<Row>
    requires first.team in TeamsOf(rows) && second.team in TeamsOf(rows)
  {
    ApplyKeepsTeams(rows, first.team, first.goals, second.goals, first.outcome);
    Apply(Apply(rows, first.team, first.goals, second.goals, first.outcome),
          second.team, second.goals, first.goals, second.outcome)
  }

  /** teams_stats after the loop over the matches, oldest first. */
  function Tabulate(ms: seq<Match>): seq<Row>
  {
    if ms == [] then [] else ApplyMatch(Tabulate(ms[..|ms| - 1]), ms[|ms| - 1])
  }

  lemma EnsureKeeps(rows: seq<Row>, a: string, b: string)
    ensures a in TeamsOf(Ensure(rows, a))
    ensures a in TeamsOf(Ensure(Ensure(rows, a), b)) && b in TeamsOf(Ensure(Ensure(rows, a), b))
  {
    TeamsOfSpec(rows);
    TeamsOfSpec(Ensure(rows, a));
    TeamsOfSpec(Ensure(Ensure(rows, a), b));
    if a !in TeamsOf(rows) {
      assert Ensure(rows, a)[|rows|].team == a;
    }
    var r := Ensure(rows, a);
    if b !in TeamsOf(r) {
      assert Ensure(r, b)[|r|].team == b;
      assert forall i :: 0 <= i < |r| ==> Ensure(r, b)[i] == r[i];
    }
  }

  lemma ApplyKeepsTeams(rows: seq<Row>, team: string, scored: nat, conceded: nat, o: Outcome)
    requires team in TeamsOf(rows)
    ensures TeamsOf(Apply(rows, team, scored, conceded, o)) == TeamsOf(rows)
  {
    var r := Apply(rows, team, scored, conceded, o);
    TeamsOfSpec(rows);
    TeamsOfSpec(r);
  }

  // ---- Row arithmetic ----

  /** P = W + D + L, Pts = 3W + D, and the form list holds W wins, D draws and L losses. */
  ghost predicate Balanced(s: Stats)
  {
    && s.played == s.won + s.drawn + s.lost
    && s.points == 3 * s.won + s.drawn
    && |s.form| == s.played
    && multiset(s.form)[Won] == s.won
    && multiset(s.form)[Drawn] == s.drawn
    && multiset(s.form)[Lost] == s.lost
  }

  ghost predicate AllBalanced(rows: seq<Row>)
  {
    rows == [] || (AllBalanced(rows[..|rows| - 1]) && Balanced(rows[|rows| - 1].stats))
  }

  lemma {:induction false} AllBalancedSpec(rows: seq<Row>)
    ensures AllBalanced(rows) <==> forall i :: 0 <= i < |rows| ==> Balanced(rows[i].stats)
  {
    if rows != [] {
      AllBalancedSpec(rows[..|rows| - 1]);
    }
  }

  lemma RecordBalanced(s: Stats, scored: nat, conceded: nat, o: Outcome)
    requires Balanced(s)
    ensures Balanced(Record(s, scored, conceded, o))
  {
    assert multiset(s.form + [o]) == multiset(s.form) + multiset{o};
  }

  lemma ApplyBalanced(rows: seq<Row>, team: string, scored: nat, conceded: nat, o: Outcome)
    requires team in TeamsOf(rows) && AllBalanced(rows)
    ensures AllBalanced(Apply(rows, team, scored, conceded, o))
  {
    TeamsOfSpec(rows);
    var i := Find(TeamsOf(rows), team).value;
    AllBalancedSpec(rows);
    RecordBalanced(rows[i].stats, scored, conceded, o);
    AllBalancedSpec(Apply(rows, team, scored, conceded, o));
  }

  lemma EnsureBalanced(rows: seq<Row>, team: string)
    requires AllBalanced(rows)
    ensures AllBalanced(Ensure(rows, team))
  {
    assert multiset(Fresh.form) == multiset{};
    if team !in TeamsOf(rows) {
      assert Ensure(rows, team)[..|rows|] == rows;
    }
  }

  lemma BothBalanced(rows: seq<Row>, first: Side, second: Side)
    requires first.team in TeamsOf(rows) && second.team in TeamsOf(rows) && AllBalanced(rows)
    ensures AllBalanced(Both(rows, first, second))
  {
    ApplyBalanced(rows, first.team, first.goals, second.goals, first.outcome);
    ApplyKeepsTeams(rows, first.team, first.goals, second.goals, first.outcome);
    ApplyBalanced(Apply(rows, first.team, first.goals, second.goals, first.outcome),
                  second.team, second.goals, first.goals, second.outcome);
  }

  lemma ApplyMatchBalanced(rows: seq<Row>, m: Match)
    requires AllBalanced(rows)
    ensures AllBalanced(ApplyMatch(rows, m))
  {
    EnsureBalanced(rows, m.team1);
    EnsureBalanced(Ensure(rows, m.team1), m.team2);
    EnsureSides(rows, m);
    BothBalanced(Ensure(Ensure(rows, m.team1), m.team2), Sides(m).0, Sides(m).1);
  }

  /** Every row of the table, including a team that played itself, satisfies the row identities. */
  lemma {:induction false} TabulateBalanced(ms: seq<Match>)
    ensures AllBalanced(Tabulate(ms))
  {
    if ms != [] {
      TabulateBalanced(ms[..|ms| - 1]);
      ApplyMatchBalanced(Tabulate(ms[..|ms| - 1]), ms[|ms| - 1]);
    }
  }

  // ---- Row order ----

  /** Team names in the order the matches mention them: team1 then team2, match by match. */
  function Participants(ms: seq<Match>): seq<string>
  {
    if ms == [] then [] else Participants(ms[..|ms| - 1]) + [ms[|ms| - 1].team1, ms[|ms| - 1].team2]
  }

  /** The names in order of first occurrence, each once. */
  function FirstAppearances(names: seq<string>): seq<string>
  {
    if names == [] then []
    else
      var seen := FirstAppearances(names[..|names| - 1]);
      if names[|names| - 1] in seen then seen else seen + [names[|names| - 1]]
  }

  /** FirstAppearances holds every name once and nothing else. */
  lemma {:induction false} FirstAppearancesSpec(names: seq<string>)
    ensures forall x :: x in FirstAppearances(names) <==> x in names
    ensures forall i, j :: 0 <= i < j < |FirstAppearances(names)| ==> FirstAppearances(names)[i] != FirstAppearances(names)[j]
  {
    if names != [] {
      var init := names[..|names| - 1];
      FirstAppearancesSpec(init);
      assert names == init + [names[|names| - 1]];
    }
  }

  lemma FirstAppearancesPair(names: seq<string>, a: string, b: string)
    ensures FirstAppearances(names + [a, b]) ==
      var s := if a in FirstAppearances(names) then FirstAppearances(names) else FirstAppearances(names) + [a];
      if b in s then s else s + [b]
  {
    assert (names + [a, b])[..|names| + 1] == names + [a];
    assert (names + [a])[..|names|] == names;
  }

  lemma TeamsOfSnoc(rows: seq<Row>, row: Row)
    ensures TeamsOf(rows + [row]) == TeamsOf(rows) + [row.team]
  {
    assert (rows + [row])[..|rows|] == rows;
  }

  lemma BothTeams(rows: seq<Row>, first: Side, second: Side)
    requires first.team in TeamsOf(rows) && second.team in TeamsOf(rows)
    ensures TeamsOf(Both(rows, first, second)) == TeamsOf(rows)
  {
    ApplyKeepsTeams(rows, first.team, first.goals, second.goals, first.outcome);
    ApplyKeepsTeams(Apply(rows, first.team, first.goals, second.goals, first.outcome),
                    second.team, second.goals, first.goals, second.outcome);
  }

  lemma ApplyMatchTeams(rows: seq<Row>, m: Match)
    ensures TeamsOf(ApplyMatch(rows, m)) ==
      var s := if m.team1 in TeamsOf(rows) then TeamsOf(rows) else TeamsOf(rows) + [m.team1];
      if m.team2 in s then s else s + [m.team2]
  {
    var r1 := Ensure(rows, m.team1);
    TeamsOfSnoc(rows, Row(m.team1, Fresh));
    TeamsOfSnoc(r1, Row(m.team2, Fresh));
    EnsureSides(rows, m);
    BothTeams(Ensure(r1, m.team2), Sides(m).0, Sides(m).1);
  }

  /**
   * The table has one row per team that played, in the order the teams
   * first appear in the matches (the dict's insertion order).
   */
  lemma {:induction false} TabulateTeams(ms: seq<Match>)
    ensures TeamsOf(Tabulate(ms)) == FirstAppearances(Participants(ms))
  {
    if ms != [] {
      var init := ms[..|ms| - 1];
      TabulateTeams(init);
      ApplyMatchTeams(Tabulate(init), ms[|ms| - 1]);
      FirstAppearancesPair(Participants(init), ms[|ms| - 1].team1, ms[|ms| - 1].team2);
    }
  }

  // ---- Column totals ----

  /** The columns whose totals over the table are fixed by the matches. */
  datatype Column = PlayedColumn | ForColumn | AgainstColumn

  function Cell(s: Stats, c: Column): nat
  {
    match c
    case PlayedColumn => s.played
    case ForColumn => s.goalsFor
    case AgainstColumn => s.goalsAgainst
  }

  /** A column summed over the rows. */
  function Sum(rows: seq<Row>, c: Column): nat
  {
    if rows == [] then 0 else Sum(rows[..|rows| - 1], c) + Cell(rows[|rows| - 1].stats, c)
  }

  /** What one side of a match adds to a column. */
  function Gain(scored: nat, conceded: nat, c: Column): nat
  {
    match c
    case PlayedColumn => 1
    case ForColumn => scored
    case AgainstColumn => conceded
  }

  /** A column summed over the matches: two appearances, and every goal once for and once against. */
  function Total(ms: seq<Match>, c: Column): nat
  {
    if ms == [] then 0
    else
      var m := ms[|ms| - 1];
      Total(ms[..|ms| - 1], c) + Gain(m.score1, m.score2, c) + Gain(m.score2, m.score1, c)
  }

  lemma {:induction false} SumUpdate(rows: seq<Row>, i: nat, row: Row, c: Column)
    requires i < |rows|
    ensures Sum(rows[i := row], c) + Cell(rows[i].stats, c) == Sum(rows, c) + Cell(row.stats, c)
  {
    var n := |rows| - 1;
    assert rows[i := row][..n] == if i == n then rows[..n] else rows[..n][i := row];
    if i < n {
      SumUpdate(rows[..n], i, row, c);
    }
  }

  lemma SumSnoc(rows: seq<Row>, row: Row, c: Column)
    ensures Sum(rows + [row], c) == Sum(rows, c) + Cell(row.stats, c)
  {
    assert (rows + [row])[..|rows|] == rows;
  }

  lemma EnsureSum(rows: seq<Row>, team: string, c: Column)
    ensures Sum(Ensure(rows, team), c) == Sum(rows, c)
  {
    SumSnoc(rows, Row(team, Fresh), c);
  }

  lemma ApplySum(rows: seq<Row>, team: string, scored: nat, conceded: nat, o: Outcome, c: Column)
    requires team in TeamsOf(rows)
    ensures Sum(Apply(rows, team, scored, conceded, o), c) == Sum(rows, c) + Gain(scored, conceded, c)
  {
    TeamsOfSpec(rows);
    var i := Find(TeamsOf(rows), team).value;
    SumUpdate(rows, i, Row(team, Record(rows[i].stats, scored, conceded, o)), c);
  }

  lemma BothSum(rows: seq<Row>, first: Side, second: Side, c: Column)
    requires first.team in TeamsOf(rows) && second.team in TeamsOf(rows)
    ensures Sum(Both(rows, first, second), c) == Sum(rows, c) + Gain(first.goals, second.goals, c) + Gain(second.goals, first.goals, c)
  {
    ApplySum(rows, first.team, first.goals, second.goals, first.outcome, c);
    ApplyKeepsTeams(rows, first.team, first.goals, second.goals, first.outcome);
    ApplySum(Apply(rows, first.team, first.goals, second.goals, first.outcome),
             second.team, second.goals, first.goals, second.outcome, c);
  }

  lemma ApplyMatchSum(rows: seq<Row>, m: Match, c: Column)
    ensures Sum(ApplyMatch(rows, m), c) == Sum(rows, c) + Gain(m.score1, m.score2, c) + Gain(m.score2, m.score1, c)
  {
    EnsureSum(rows, m.team1, c);
    EnsureSum(Ensure(rows, m.team1), m.team2, c);
    EnsureSides(rows, m);
    BothSum(Ensure(Ensure(rows, m.team1), m.team2), Sides(m).0, Sides(m).1, c);
  }

  /** Each column of the table sums to what the matches put into it. */
  lemma {:induction false} TabulateSum(ms: seq<Match>, c: Column)
    ensures Sum(Tabulate(ms), c) == Total(ms, c)
  {
    if ms != [] {
      TabulateSum(ms[..|ms| - 1], c);
      ApplyMatchSum(Tabulate(ms[..|ms| - 1]), ms[|ms| - 1], c);
    }
  }

  /** Goals scored by both sides of every match. */
  function Scored(ms: seq<Match>): nat
  {
    if ms == [] then 0 else Scored(ms[..|ms| - 1]) + ms[|ms| - 1].score1 + ms[|ms| - 1].score2
  }

  /**
   * The GF column and the GA column both add up to the goals of all
   * matches, and the P column to two appearances per match.
   */
  lemma {:induction false} TabulateTotals(ms: seq<Match>)
    ensures Sum(Tabulate(ms), ForColumn) == Scored(ms)
    ensures Sum(Tabulate(ms), AgainstColumn) == Scored(ms)
    ensures Sum(Tabulate(ms), PlayedColumn) == 2 * |ms|
  {
    TabulateSum(ms, ForColumn);
    TabulateSum(ms, AgainstColumn);
    TabulateSum(ms, PlayedColumn);
    TotalsOfMatches(ms);
  }

  lemma {:induction false} TotalsOfMatches(ms: seq<Match>)
    ensures Total(ms, ForColumn) == Scored(ms) == Total(ms, AgainstColumn)
    ensures Total(ms, PlayedColumn) == 2 * |ms|
  {
    if ms != [] {
      TotalsOfMatches(ms[..|ms| - 1]);
    }
  }

  // ---- Sorting by (-Pts, -GD, -GF) ----

  function GoalDifference(s: Stats): int
  {
    s.goalsFor - s.goalsAgainst
  }

  /** a's key (-Pts, -GD, -GF) is smaller than b's: a is listed above b. */
  predicate Ahead(a: Stats, b: Stats)
  {
    || a.points > b.points
    || (a.points == b.points && GoalDifference(a) > GoalDifference(b))
    || (a.points == b.points && GoalDifference(a) == GoalDifference(b) && a.goalsFor > b.goalsFor)
  }

  /** a and b have equal sort keys. */
  predicate SameKey(a: Stats, b: Stats)
  {
    a.points == b.points && GoalDifference(a) == GoalDifference(b) && a.goalsFor == b.goalsFor
  }

  lemma AheadOrder(a: Stats, b: Stats, c: Stats)
    ensures !(Ahead(a, b) && Ahead(b, a))
    ensures Ahead(a, b) && Ahead(b, c) ==> Ahead(a, c)
    ensures !Ahead(a, b) && !Ahead(b, a) <==> SameKey(a, b)
  {
  }

  /** Puts row after every row that is not behind it. */
  function Insert(row: Row, sorted: seq<Row>): seq<Row>
  {
    if sorted == [] then [row]
    else if Ahead(row.stats, sorted[0].stats) then [row] + sorted
    else [sorted[0]] + Insert(row, sorted[1..])
  }

  /** sorted(teams_stats.items(), key=...): insertion sort, later rows inserted last. */
  function SortRows(rows: seq<Row>): seq<Row>
  {
    if rows == [] then [] else Insert(rows[|rows| - 1], SortRows(rows[..|rows| - 1]))
  }

  /** No row is listed below a row it is ahead of. */
  ghost predicate Ordered(rows: seq<Row>)
  {
    forall i, j :: 0 <= i < j < |rows| ==> !Ahead(rows[j].stats, rows[i].stats)
  }

  /** The rows whose key equals key's, in order. */
  function KeyMates(rows: seq<Row>, key: Stats): seq<Row>
  {
    if rows == [] then []
    else (if SameKey(rows[0].stats, key) then [rows[0]] else []) + KeyMates(rows[1..], key)
  }

  lemma {:induction false} InsertPermutes(row: Row, sorted: seq<Row>)
    ensures multiset(Insert(row, sorted)) == multiset(sorted) + multiset{row}
  {
    if sorted != [] && !Ahead(row.stats, sorted[0].stats) {
      InsertPermutes(row, sorted[1..]);
      assert sorted == [sorted[0]] + sorted[1..];
    }
  }

  lemma OrderedCons(head: Row, tail: seq<Row>)
    requires Ordered(tail)
    requires forall r :: r in tail ==> !Ahead(r.stats, head.stats)
    ensures Ordered([head] + tail)
  {
    forall i, j | 0 <= i < j < |[head] + tail|
      ensures !Ahead(([head] + tail)[j].stats, ([head] + tail)[i].stats)
    {
      assert ([head] + tail)[j] == tail[j - 1];
      if i > 0 {
        assert ([head] + tail)[i] == tail[i - 1];
      }
    }
  }

  lemma {:induction false} InsertOrdered(row: Row, sorted: seq<Row>)
    requires Ordered(sorted)
    ensures Ordered(Insert(row, sorted))
  {
    if sorted == [] {
    } else if Ahead(row.stats, sorted[0].stats) {
      forall r | r in sorted
        ensures !Ahead(r.stats, row.stats)
      {
        var j :| 0 <= j < |sorted| && sorted[j] == r;
        AheadOrder(r.stats, row.stats, sorted[0].stats);
        AheadOrder(row.stats, sorted[0].stats, row.stats);
      }
      OrderedCons(row, sorted);
    } else {
      var tail := sorted[1..];
      assert Ordered(tail);
      InsertOrdered(row, tail);
      InsertPermutes(row, tail);
      forall r | r in Insert(row, tail)
        ensures !Ahead(r.stats, sorted[0].stats)
      {
        assert r in multiset(Insert(row, tail));
        if r != row {
          assert r in multiset(tail);
        }
      }
      OrderedCons(sorted[0], Insert(row, tail));
    }
  }

  lemma {:induction false} KeyMatesConcat(a: seq<Row>, b: seq<Row>, key: Stats)
    ensures KeyMates(a + b, key) == KeyMates(a, key) + KeyMates(b, key)
  {
    if a != [] {
      KeyMatesConcat(a[1..], b, key);
      assert (a + b)[0] == a[0];
      assert (a + b)[1..] == a[1..] + b;
    } else {
      assert a + b == b;
    }
  }

  lemma KeyMatesSnoc(rows: seq<Row>, row: Row, key: Stats)
    ensures KeyMates(rows + [row], key) == KeyMates(rows, key) + (if SameKey(row.stats, key) then [row] else [])
  {
    KeyMatesConcat(rows, [row], key);
    assert [row][1..] == [];
  }

  lemma {:induction false} KeyMatesNone(rows: seq<Row>, key: Stats)
    requires forall r :: r in rows ==> !SameKey(r.stats, key)
    ensures KeyMates(rows, key) == []
  {
    if rows != [] {
      KeyMatesNone(rows[1..], key);
    }
  }

  lemma {:induction false} InsertKeyMates(row: Row, sorted: seq<Row>, key: Stats)
    requires Ordered(sorted)
    ensures KeyMates(Insert(row, sorted), key) ==
            KeyMates(sorted, key) + (if SameKey(row.stats, key) then [row] else [])
  {
    if sorted == [] {
    } else if Ahead(row.stats, sorted[0].stats) {
      if SameKey(row.stats, key) {
        forall r | r in sorted
          ensures !SameKey(r.stats, key)
        {
          var j :| 0 <= j < |sorted| && sorted[j] == r;
          AheadOrder(r.stats, row.stats, sorted[0].stats);
        }
        KeyMatesNone(sorted, key);
      }
      assert ([row] + sorted)[1..] == sorted;
    } else {
      var tail := sorted[1..];
      assert Ordered(tail);
      InsertKeyMates(row, tail, key);
      assert ([sorted[0]] + Insert(row, tail))[1..] == Insert(row, tail);
    }
  }

  /**
   * The sort is a permutation, lists no row below one it is ahead of,
   * and keeps rows with equal keys in their original order (stability).
   */
  lemma {:induction false} SortRowsSpec(rows: seq<Row>)
    ensures multiset(SortRows(rows)) == multiset(rows)
    ensures Ordered(SortRows(rows))
  {
    if rows != [] {
      var init := rows[..|rows| - 1];
      SortRowsSpec(init);
      InsertPermutes(rows[|rows| - 1], SortRows(init));
      InsertOrdered(rows[|rows| - 1], SortRows(init));
      assert rows == init + [rows[|rows| - 1]];
    }
  }

  /** Rows with equal keys keep their original relative order. */
  lemma {:induction false} SortRowsStable(rows: seq<Row>, key: Stats)
    ensures KeyMates(SortRows(rows), key) == KeyMates(rows, key)
  {
    if rows != [] {
      var init := rows[..|rows| - 1];
      var last := rows[|rows| - 1];
      assert rows == init + [last];
      KeyMatesSnoc(init, last, key);
      SortRowsStable(init, key);
      SortRowsSpec(init);
      InsertKeyMates(last, SortRows(init), key);
    }
  }

  /**
   * An ordered list is determined by its key classes: two ordered lists
   * whose rows of each key come in the same order are equal. So SortRows
   * is the one stable sort of its input.
   */
  lemma {:induction false} OrderedUnique(x: seq<Row>, y: seq<Row>)
    requires Ordered(x) && Ordered(y)
    requires forall key :: KeyMates(x, key) == KeyMates(y, key)
    ensures x == y
  {
    EmptyTogether(x, y);
    if x != [] {
      HeadKey(x, y);
      HeadKey(y, x);
      AheadOrder(x[0].stats, y[0].stats, x[0].stats);
      assert KeyMates(x, x[0].stats)[0] == x[0];
      assert KeyMates(y, x[0].stats)[0] == y[0];
      forall k
        ensures KeyMates(x[1..], k) == KeyMates(y[1..], k)
      {
        TailKeyMates(x, y, k);
      }
      assert Ordered(x[1..]) && Ordered(y[1..]);
      OrderedUnique(x[1..], y[1..]);
      assert x == [x[0]] + x[1..] && y == [y[0]] + y[1..];
    }
  }

  lemma EmptyTogether(x: seq<Row>, y: seq<Row>)
    requires forall key :: KeyMates(x, key) == KeyMates(y, key)
    ensures x == [] <==> y == []
  {
    if x != [] {
      assert KeyMates(y, x[0].stats) != [];
    }
    if y != [] {
      assert KeyMates(x, y[0].stats) != [];
    }
  }

  lemma TailKeyMates(x: seq<Row>, y: seq<Row>, key: Stats)
    requires x != [] && y != [] && x[0] == y[0]
    requires KeyMates(x, key) == KeyMates(y, key)
    ensures KeyMates(x[1..], key) == KeyMates(y[1..], key)
  {
    var front := if SameKey(x[0].stats, key) then [x[0]] else [];
    assert KeyMates(x[1..], key) == KeyMates(x, key)[|front|..];
    assert KeyMates(y[1..], key) == KeyMates(y, key)[|front|..];
  }

  lemma {:induction false} KeyMatesIn(rows: seq<Row>, key: Stats, r: Row)
    requires r in KeyMates(rows, key)
    ensures r in rows
  {
    if rows != [] && r !in (if SameKey(rows[0].stats, key) then [rows[0]] else []) {
      KeyMatesIn(rows[1..], key, r);
    }
  }

  /** The head of any list with the same rows of x[0]'s key as an ordered list y is not ahead of y's head. */
  lemma HeadKey(x: seq<Row>, y: seq<Row>)
    requires Ordered(y) && x != [] && y != []
    requires KeyMates(x, x[0].stats) == KeyMates(y, x[0].stats)
    ensures !Ahead(x[0].stats, y[0].stats)
  {
    assert KeyMates(x, x[0].stats)[0] == x[0];
    KeyMatesIn(y, x[0].stats, x[0]);
    var j :| 0 <= j < |y| && y[j] == x[0];
    if j > 0 {
      OrderedAt(y, j);
    }
  }

  lemma OrderedAt(rows: seq<Row>, j: nat)
    requires Ordered(rows) && 0 < j < |rows|
    ensures !Ahead(rows[j].stats, rows[0].stats)
  {
  }

  // ---- The shown table ----

  /** The form symbols a row shows: form[-3:]. */
  function Recent(form: seq<Outcome>): (r: seq<Outcome>)
    ensures |r| == if |form| < 3 then |form| else 3
    ensures form == form[..|form| - |r|] + r
  {
    if |form| <= 3 then form else form[|form| - 3..]
  }

  /** One printed row: team | P | W-D-L | GF-GA | GD | Pts | recent form. */
  datatype Line = Line(team: string, played: nat, won: nat, drawn: nat, lost: nat,
                       goalsFor: nat, goalsAgainst: nat, difference: int, points: nat,
                       recent: seq<Outcome>)

  function Show(row: Row): Line
  {
    var s := row.stats;
    Line(row.team, s.played, s.won, s.drawn, s.lost, s.goalsFor, s.goalsAgainst,
         GoalDifference(s), s.points, Recent(s.form))
  }

  /** The teams_stats rows in the order the table lists them. */
  function Standing(ms: seq<Match>): seq<Row>
  {
    SortRows(Tabulate(ms))
  }

  /** The table reply: nothing to show without matches, else one line per team in standing order. */
  function Table(ms: seq<Match>): Option<seq<Line>>
  {
    if ms == [] then None
    else Some(seq(|Standing(ms)|, i requires 0 <= i < |Standing(ms)| => Show(Standing(ms)[i])))
  }

  /**
   * The standing holds each team that played exactly once, every row
   * balanced, ordered by the key, with ties in order of first appearance.
   */
  lemma StandingSpec(ms: seq<Match>)
    ensures multiset(Standing(ms)) == multiset(Tabulate(ms))
    ensures TeamsOf(Tabulate(ms)) == FirstAppearances(Participants(ms))
    ensures Ordered(Standing(ms))
    ensures forall key :: KeyMates(Standing(ms), key) == KeyMates(Tabulate(ms), key)
    ensures forall i :: 0 <= i < |Standing(ms)| ==> Balanced(Standing(ms)[i].stats)
  {
    SortRowsSpec(Tabulate(ms));
    TabulateTeams(ms);
    forall key
      ensures KeyMates(Standing(ms), key) == KeyMates(Tabulate(ms), key)
    {
      SortRowsStable(Tabulate(ms), key);
    }
    StandingBalanced(ms);
  }

  lemma StandingBalanced(ms: seq<Match>)
    ensures forall i :: 0 <= i < |Standing(ms)| ==> Balanced(Standing(ms)[i].stats)
  {
    var rows := Tabulate(ms);
    SortRowsSpec(rows);
    TabulateBalanced(ms);
    AllBalancedSpec(rows);
    forall i | 0 <= i < |SortRows(rows)|
      ensures Balanced(SortRows(rows)[i].stats)
    {
      assert SortRows(rows)[i] in multiset(rows);
    }
  }

  /**
   * The reply is absent exactly when no match was played; otherwise it
   * has one line per team, each line satisfies the column identities and
   * shows the last min(3, P) form symbols, and lines go by non-increasing
   * (Pts, GD, GF).
   */
  lemma TableSpec(ms: seq<Match>)
    ensures Table(ms).None? <==> ms == []
    ensures Table(ms).Some? ==> |Table(ms).value| == |FirstAppearances(Participants(ms))|
    ensures Table(ms).Some? ==> forall i :: 0 <= i < |Table(ms).value| ==>
              var l := Table(ms).value[i];
              && l.played == l.won + l.drawn + l.lost
              && l.points == 3 * l.won + l.drawn
              && l.difference == l.goalsFor - l.goalsAgainst
              && |l.recent| == (if l.played < 3 then l.played else 3)
    ensures Table(ms).Some? ==> forall i, j :: 0 <= i < j < |Table(ms).value| ==>
              var a, b := Table(ms).value[i], Table(ms).value[j];
              || a.points > b.points
              || (a.points == b.points && a.difference > b.difference)
              || (a.points == b.points && a.difference == b.difference && a.goalsFor >= b.goalsFor)
  {
    StandingSpec(ms);
    TeamsOfSpec(Tabulate(ms));
    assert |Standing(ms)| == |Tabulate(ms)| by {
      assert |multiset(Standing(ms))| == |multiset(Tabulate(ms))|;
    }
  }

  /** The table loop over the stored matches, as the handler runs it. */
  method TabulateLoop(ms: seq<Match>) returns (rows: seq<Row>)
    ensures rows == Tabulate(ms)
  {
    rows := [];
    for i := 0 to |ms|
      invariant rows == Tabulate(ms[..i])
    {
      TakeSnoc(ms, i);
      var m := ms[i];
      rows := Ensure(rows, m.team1);
      rows := Ensure(rows, m.team2);
      var (first, second) := Sides(m);
      EnsureSides(Tabulate(ms[..i]), m);
      rows := Both(rows, first, second);
    }
    assert ms[..|ms|] == ms;
  }

  lemma TakeSnoc(ms: seq<Match>, i: nat)
    requires i < |ms|
    ensures ms[..i + 1][..i] == ms[..i] && ms[..i + 1][i] == ms[i]
  {
  }
}
