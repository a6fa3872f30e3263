/**
 * The line loop of the teams command: a numbered header line "N." selects
 * team N, and every later non-blank line is a player of that team, kept
 * only for the three teams that have a colour label.
 */
module Rosters {
  import opened Wrappers
  import opened Text

  /** team_colors: the labels of teams 1, 2 and 3 (blue, green and orange squares). */
  const TeamColors: seq<string> := ["\U{1F7E6}", "\U{1F7E9}", "\U{1F7E7}"]

  predicate IsDigit(c: char)
  {
    '0' <= c <= '9'
  }

  lemma DigitNotSpace(c: char)
    requires IsDigit(c)
    ensures !IsSpace(c) && c != '.'
  {
  }

  /** What Python's int() accepts here: digits, with single underscores between digits. */
  predicate IsDecimal(s: string)
  {
    && |s| > 0 && IsDigit(s[0]) && IsDigit(s[|s| - 1])
    && (forall i :: 0 <= i < |s| ==> IsDigit(s[i]) || s[i] == '_')
    && (forall i :: 0 <= i < |s| - 1 ==> s[i] == '_' ==> s[i + 1] != '_')
  }

  /** The value int() gives such a string; underscores are ignored. */
  function DecimalValue(s: string): nat
  {
    if s == [] then 0
    else if IsDigit(s[|s| - 1]) then DecimalValue(s[..|s| - 1]) * 10 + (s[|s| - 1] as int - '0' as int)
    else DecimalValue(s[..|s| - 1])
  }

  /** int() raised ValueError on the text before the '.' of a header line. */
  datatype RosterError = BadTeamNumber(text: string)

  /** A player line kept for the team with index team (0, 1 or 2). */
  datatype Kept = Kept(team: nat, line: string)

  datatype Assignment = Assignment(kept: seq<Kept>, failed: Option<RosterError>)

  /** A stripped line that starts with a digit and holds a '.'. */
  predicate IsHeader(line: string)
  {
    line != "" && IsDigit(line[0]) && '.' in line
  }

  /** int(line.split(".", 1)[0].strip()) */
  function HeaderNumber(line: string): Result<nat, RosterError>
  {
    var number := Strip(Split(line, '.')[0]);
    if IsDecimal(number) then Success(DecimalValue(number)) else Failure(BadTeamNumber(number))
  }

  /** A header whose text before the first '.' is a run of digits has the number those digits spell. */
  lemma HeaderDigits(digits: string, rest: string)
    requires digits != [] && forall i :: 0 <= i < |digits| ==> IsDigit(digits[i])
    ensures HeaderNumber(digits + "." + rest) == Success(DecimalValue(digits))
  {
    assert '.' !in digits by {
      forall i | 0 <= i < |digits| ensures digits[i] != '.' {
        DigitNotSpace(digits[i]);
      }
    }
    assert digits + "." + rest == digits + ['.'] + rest;
    SplitPrefix(digits, rest, '.');
    DigitNotSpace(digits[0]);
    DigitNotSpace(digits[|digits| - 1]);
    StripTrimmed(digits);
    assert IsDecimal(digits);
  }

  /** "N. ..." with one digit N selects team N: the headers "1.", "2." and "3." name the three coloured teams. */
  lemma SingleDigitHeader(d: char, rest: string)
    requires IsDigit(d)
    ensures HeaderNumber([d] + "." + rest) == Success(d as int - '0' as int)
  {
    HeaderDigits([d], rest);
    assert [d][..0] == [];
  }

  /** A header with an underscore right before the '.' makes int() raise, naming that text. */
  lemma TrailingUnderscoreHeader(digits: string, rest: string)
    requires digits != [] && forall i :: 0 <= i < |digits| ==> IsDigit(digits[i])
    ensures HeaderNumber(digits + "_." + rest) == Failure(BadTeamNumber(digits + "_"))
  {
    var number := digits + "_";
    assert '.' !in number by {
      forall i | 0 <= i < |number| ensures number[i] != '.' {
        if i < |digits| {
          DigitNotSpace(digits[i]);
        }
      }
    }
    assert digits + "_." + rest == number + ['.'] + rest;
    SplitPrefix(number, rest, '.');
    DigitNotSpace(digits[0]);
    StripTrimmed(number);
    assert !IsDecimal(number);
  }

  /**
   * The loop over the lines with current_team_index = current: blank lines
   * are skipped, a header moves to team number - 1, any other line is kept
   * for the current team when 0 <= current < 3. A header whose number int()
   * rejects ends the loop; the lines kept before it stay kept.
   */
  function Assign(lines: seq<string>, current: int): (r: Assignment)
    ensures forall k :: 0 <= k < |r.kept| ==> r.kept[k].team < |TeamColors| && r.kept[k].line != ""
  {
    if lines == [] then Assignment([], None)
    else
      var line := Strip(lines[0]);
      if line == "" then Assign(lines[1..], current)
      else if IsHeader(line) then
        match HeaderNumber(line)
        case Failure(e) => Assignment([], Some(e))
        case Success(n) => Assign(lines[1..], n - 1)
      else if 0 <= current < |TeamColors| then
        var rest := Assign(lines[1..], current);
        Assignment([Kept(current, line)] + rest.kept, rest.failed)
      else
        Assign(lines[1..], current)
  }

  /** data["teams"].get(team, []): the list setdefault would start from. */
  function Roster(teams: map<string, seq<string>>, team: string): seq<string>
  {
    if team in teams then teams[team] else []
  }

  /** data["teams"].setdefault(team_colors[k.team], []).append(k.line) */
  function AddPlayer(teams: map<string, seq<string>>, k: Kept): map<string, seq<string>>
    requires k.team < |TeamColors|
  {
    var team := TeamColors[k.team];
    teams[team := Roster(teams, team) + [k.line]]
  }

  ghost predicate InRange(kept: seq<Kept>)
  {
    forall k :: 0 <= k < |kept| ==> kept[k].team < |TeamColors|
  }

  /** The kept lines appended one by one, in order. */
  function AddPlayers(teams: map<string, seq<string>>, kept: seq<Kept>): map<string, seq<string>>
    requires InRange(kept)
  {
    if kept == [] then teams else AddPlayer(AddPlayers(teams, kept[..|kept| - 1]), kept[|kept| - 1])
  }

  /** The lines of kept that belong to team index j, in order. */
  function LinesOf(kept: seq<Kept>, j: nat): seq<string>
  {
    if kept == [] then []
    else LinesOf(kept[..|kept| - 1], j) + (if kept[|kept| - 1].team == j then [kept[|kept| - 1].line] else [])
  }

  /**
   * Each team's list grows by exactly its own kept lines, in order; a key
   * that is not a team label is untouched.
   */
  lemma {:induction false} AddPlayersSpec(teams: map<string, seq<string>>, kept: seq<Kept>)
    requires InRange(kept)
    ensures forall j :: 0 <= j < |TeamColors| ==>
      Roster(AddPlayers(teams, kept), TeamColors[j]) == Roster(teams, TeamColors[j]) + LinesOf(kept, j)
    ensures forall key :: key !in TeamColors ==>
      (key in AddPlayers(teams, kept) <==> key in teams) &&
      (key in teams ==> AddPlayers(teams, kept)[key] == teams[key])
  {
    if kept != [] {
      var n := |kept| - 1;
      AddPlayersSpec(teams, kept[..n]);
      forall j | 0 <= j < |TeamColors|
        ensures Roster(AddPlayers(teams, kept), TeamColors[j]) == Roster(teams, TeamColors[j]) + LinesOf(kept, j)
      {
        AddPlayerRoster(AddPlayers(teams, kept[..n]), kept[n], j);
      }
    }
  }

  /** Appending one kept line grows its own team's list by that line and no other team's list. */
  lemma AddPlayerRoster(teams: map<string, seq<string>>, k: Kept, j: nat)
    requires k.team < |TeamColors| && j < |TeamColors|
    ensures Roster(AddPlayer(teams, k), TeamColors[j]) == Roster(teams, TeamColors[j]) + (if k.team == j then [k.line] else [])
  {
    if k.team != j {
      assert TeamColors[k.team] != TeamColors[j];
    }
  }

  /** Every line before the first header is dropped: no team is current yet. */
  lemma {:induction false} LinesBeforeHeaderIgnored(lines: seq<string>, current: int, k: nat)
    requires k <= |lines|
    requires current < 0 || current >= |TeamColors|
    requires forall i :: 0 <= i < k ==> !IsHeader(Strip(lines[i]))
    ensures Assign(lines, current) == Assign(lines[k..], current)
  {
    if k > 0 {
      assert lines[1..][k - 1..] == lines[k..];
      LinesLeadingIgnoredStep(lines, current);
      LinesBeforeHeaderIgnored(lines[1..], current, k - 1);
    }
  }

  lemma LinesLeadingIgnoredStep(lines: seq<string>, current: int)
    requires lines != []
    requires current < 0 || current >= |TeamColors|
    requires !IsHeader(Strip(lines[0]))
    ensures Assign(lines, current) == Assign(lines[1..], current)
  {
  }

  /** The lines as the loop sees them: stripped, with the blank ones skipped, in order. */
  function PlayerLines(lines: seq<string>): seq<string>
  {
    if lines == [] then []
    else (if Strip(lines[0]) == "" then [] else [Strip(lines[0])]) + PlayerLines(lines[1..])
  }

  /**
   * A header "N." followed by lines that are not headers keeps every
   * non-blank one of them, stripped and in order, for team N when
   * 1 <= N <= 3, and drops them all otherwise; the lines after them, from
   * the next header on, are assigned as if the block had not been there,
   * with team N - 1 current.
   */
  lemma HeaderSelectsTeam(header: string, players: seq<string>, rest: seq<string>, current: int)
    requires IsHeader(Strip(header)) && HeaderNumber(Strip(header)).Success?
    requires forall i :: 0 <= i < |players| ==> !IsHeader(Strip(players[i]))
    ensures var n := HeaderNumber(Strip(header)).value;
      Assign([header] + players + rest, current).failed == Assign(rest, n - 1).failed
    ensures var n := HeaderNumber(Strip(header)).value;
      Assign([header] + players + rest, current).kept ==
        (if 1 <= n <= |TeamColors| then KeptFor(n - 1, PlayerLines(players)) else []) + Assign(rest, n - 1).kept
  {
    var n: int := HeaderNumber(Strip(header)).value;
    LinesAssoc([header], players, rest);
    AssignAfterHeader(header, players + rest, current);
    PlayersFollow(players, rest, n - 1);
  }

  lemma LinesAssoc(a: seq<string>, b: seq<string>, c: seq<string>)
    ensures a + b + c == a + (b + c)
  {
  }

  /** A header that int() accepts moves the loop to team number - 1. */
  lemma AssignAfterHeader(header: string, players: seq<string>, current: int)
    requires IsHeader(Strip(header)) && HeaderNumber(Strip(header)).Success?
    ensures Assign([header] + players, current) == Assign(players, HeaderNumber(Strip(header)).value - 1)
  {
    var lines := [header] + players;
    AssignStep(lines, 0, current);
    assert lines[0..] == lines && lines[0] == header && lines[1..] == players;
  }

  /** Each line tagged with one team. */
  function KeptFor(team: nat, lines: seq<string>): seq<Kept>
  {
    if lines == [] then [] else [Kept(team, lines[0])] + KeptFor(team, lines[1..])
  }

  /**
   * A run of lines with no header goes, blank lines skipped, to the current
   * team, or nowhere; what follows the run is assigned as if the run had
   * not been there.
   */
  lemma {:induction false} PlayersFollow(players: seq<string>, rest: seq<string>, current: int)
    requires forall i :: 0 <= i < |players| ==> !IsHeader(Strip(players[i]))
    ensures Assign(players + rest, current).failed == Assign(rest, current).failed
    ensures Assign(players + rest, current).kept ==
      (if 0 <= current < |TeamColors| then KeptFor(current, PlayerLines(players)) else []) + Assign(rest, current).kept
  {
    if players == [] {
      assert players + rest == rest;
      assert PlayerLines(players) == [];
    } else {
      var lines, line := players + rest, Strip(players[0]);
      assert lines[0] == players[0] && lines[1..] == players[1..] + rest;
      PlayerLineStep(lines, current);
      PlayersFollow(players[1..], rest, current);
      FirstPlayerLine(players, current);
      var here := if line != "" && 0 <= current < |TeamColors| then [Kept(current, line)] else [];
      var others := if 0 <= current < |TeamColors| then KeptFor(current, PlayerLines(players[1..])) else [];
      KeptAssoc(here, others, Assign(rest, current).kept);
    }
  }

  /** A line that is not a header is kept for the current team if it is not blank, and the loop goes on. */
  lemma PlayerLineStep(lines: seq<string>, current: int)
    requires lines != [] && !IsHeader(Strip(lines[0]))
    ensures var line, next := Strip(lines[0]), Assign(lines[1..], current);
      Assign(lines, current) ==
        if line != "" && 0 <= current < |TeamColors| then Assignment([Kept(current, line)] + next.kept, next.failed)
        else next
  {
  }

  /** The kept lines of a non-empty run: its first line, if not blank, then those of the others. */
  lemma FirstPlayerLine(players: seq<string>, current: int)
    requires players != []
    ensures var line := Strip(players[0]);
      (if 0 <= current < |TeamColors| then KeptFor(current, PlayerLines(players)) else []) ==
        (if line != "" && 0 <= current < |TeamColors| then [Kept(current, line)] else []) +
        (if 0 <= current < |TeamColors| then KeptFor(current, PlayerLines(players[1..])) else [])
  {
    var line := Strip(players[0]);
    if line == "" {
      assert PlayerLines(players) == PlayerLines(players[1..]);
    } else {
      assert PlayerLines(players) == [line] + PlayerLines(players[1..]);
      if 0 <= current < |TeamColors| {
        assert ([line] + PlayerLines(players[1..]))[1..] == PlayerLines(players[1..]);
      }
    }
  }

  /** One step of Assign from line i, case by case. */
  lemma AssignStep(lines: seq<string>, i: nat, current: int)
    requires i < |lines|
    ensures var line := Strip(lines[i]);
      var next := Assign(lines[i + 1..], current);
      && (line == "" ==> Assign(lines[i..], current) == next)
      && (IsHeader(line) && HeaderNumber(line).Failure? ==>
            Assign(lines[i..], current) == Assignment([], Some(HeaderNumber(line).error)))
      && (IsHeader(line) && HeaderNumber(line).Success? ==>
            Assign(lines[i..], current) == Assign(lines[i + 1..], HeaderNumber(line).value - 1))
      && (line != "" && !IsHeader(line) && 0 <= current < |TeamColors| ==>
            Assign(lines[i..], current) == Assignment([Kept(current, line)] + next.kept, next.failed))
      && (line != "" && !IsHeader(line) && !(0 <= current < |TeamColors|) ==>
            Assign(lines[i..], current) == next)
  {
    assert lines[i..][0] == lines[i];
    assert lines[i..][1..] == lines[i + 1..];
  }

  /** The loop's state after some lines: what it kept, current_team_index, and the error that stopped it. */
  datatype Scan = Scan(kept: seq<Kept>, current: int, failed: Option<RosterError>)

  /** One pass of the loop body; once int() has raised nothing more happens. */
  function ScanLine(st: Scan, raw: string): Scan
  {
    if st.failed.Some? then st
    else
      var line := Strip(raw);
      if line == "" then st
      else if IsHeader(line) then
        match HeaderNumber(line)
        case Failure(e) => Scan(st.kept, st.current, Some(e))
        case Success(n) => Scan(st.kept, n - 1, None)
      else if 0 <= st.current < |TeamColors| then Scan(st.kept + [Kept(st.current, line)], st.current, None)
      else st
  }

  /** The loop run left to right over lines from current_team_index = -1. */
  function ScanLines(lines: seq<string>): Scan
  {
    if lines == [] then Scan([], -1, None)
    else ScanLine(ScanLines(lines[..|lines| - 1]), lines[|lines| - 1])
  }

  lemma ScanLinesSnoc(lines: seq<string>, i: nat)
    requires i < |lines|
    ensures ScanLines(lines[..i + 1]) == ScanLine(ScanLines(lines[..i]), lines[i])
  {
    assert lines[..i + 1][..i] == lines[..i];
  }

  /**
   * The left-to-right scan and Assign agree: after the first i lines, what
   * Assign keeps is what the scan kept so far followed by what Assign keeps
   * from line i on, starting from the scan's current team; once the scan
   * has stopped, Assign stopped there too with the same error.
   */
  lemma {:induction false} ScanFrom(lines: seq<string>, i: nat)
    requires i <= |lines|
    ensures var st := ScanLines(lines[..i]);
      && (st.failed.None? ==>
            Assign(lines, -1).kept == st.kept + Assign(lines[i..], st.current).kept &&
            Assign(lines, -1).failed == Assign(lines[i..], st.current).failed)
      && (st.failed.Some? ==> Assign(lines, -1) == Assignment(st.kept, st.failed))
  {
    if i == 0 {
      assert lines[..0] == [];
      assert lines[0..] == lines;
    } else {
      ScanFrom(lines, i - 1);
      ScanLinesSnoc(lines, i - 1);
      var st := ScanLines(lines[..i - 1]);
      if st.failed.None? {
        ScanAdvance(lines, i - 1, st);
      }
    }
  }

  /** The step of ScanFrom: one more line keeps the scan and Assign in agreement. */
  lemma ScanAdvance(lines: seq<string>, i: nat, st: Scan)
    requires i < |lines| && st.failed.None?
    requires Assign(lines, -1).kept == st.kept + Assign(lines[i..], st.current).kept
    requires Assign(lines, -1).failed == Assign(lines[i..], st.current).failed
    ensures var st' := ScanLine(st, lines[i]);
      && (st'.failed.None? ==>
            Assign(lines, -1).kept == st'.kept + Assign(lines[i + 1..], st'.current).kept &&
            Assign(lines, -1).failed == Assign(lines[i + 1..], st'.current).failed)
      && (st'.failed.Some? ==> Assign(lines, -1) == Assignment(st'.kept, st'.failed))
  {
    AssignStep(lines, i, st.current);
    var line := Strip(lines[i]);
    if line != "" && !IsHeader(line) && 0 <= st.current < |TeamColors| {
      KeptAssoc(st.kept, [Kept(st.current, line)], Assign(lines[i + 1..], st.current).kept);
    } else if IsHeader(line) && HeaderNumber(line).Failure? {
      KeptAssoc(st.kept, [], []);
    }
  }

  /** The scan over all the lines is Assign from current_team_index = -1. */
  lemma ScanLinesAssign(lines: seq<string>)
    ensures ScanLines(lines).kept == Assign(lines, -1).kept
    ensures ScanLines(lines).failed == Assign(lines, -1).failed
  {
    ScanFrom(lines, |lines|);
    assert lines[..|lines|] == lines;
    KeptAssoc(ScanLines(lines).kept, [], []);
  }

  lemma KeptAssoc(a: seq<Kept>, b: seq<Kept>, c: seq<Kept>)
    ensures a + (b + c) == (a + b) + c && a + [] == a
  {
  }

  lemma AddPlayersSnoc(teams: map<string, seq<string>>, kept: seq<Kept>, k: Kept)
    requires InRange(kept) && k.team < |TeamColors|
    ensures InRange(kept + [k])
    ensures AddPlayers(teams, kept + [k]) == AddPlayer(AddPlayers(teams, kept), k)
  {
    assert (kept + [k])[..|kept|] == kept;
  }

  /**
   * The loop of the teams command over the lines of its text, from
   * current_team_index = -1: it appends each kept line to its team's list
   * as it goes, and a header that int() rejects stops it with what was
   * appended so far.
   */
  method PlaceLines(teams: map<string, seq<string>>, lines: seq<string>)
    returns (teams': map<string, seq<string>>, failed: Option<RosterError>)
    ensures teams' == AddPlayers(teams, Assign(lines, -1).kept)
    ensures failed == Assign(lines, -1).failed
  {
    teams' := teams;
    var current: int := -1;
    ghost var kept: seq<Kept> := [];
    assert lines[..0] == [];
    for i := 0 to |lines|
      invariant Scan(kept, current, None) == ScanLines(lines[..i])
      invariant InRange(kept)
      invariant teams' == AddPlayers(teams, kept)
    {
      ScanLinesSnoc(lines, i);
      var line := Strip(lines[i]);
      if line != "" && IsDigit(line[0]) && '.' in line {
        var number := HeaderNumber(line);
        if number.Failure? {
          ScanFrom(lines, i + 1);
          return teams', Some(number.error);
        }
        current := number.value as int - 1;
      } else if line != "" && 0 <= current < |TeamColors| {
        var team := TeamColors[current];
        teams' := teams'[team := Roster(teams', team) + [line]];
        AddPlayersSnoc(teams, kept, Kept(current, line));
        kept := kept + [Kept(current, line)];
      }
    }
    ScanLinesAssign(lines);
    assert lines[..|lines|] == lines;
    return teams', None;
  }
}
