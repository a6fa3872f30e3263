/**
 * The per-chat tournament state (the tournaments dict and its
 * {matches, scorers, playmakers, teams} records) and the commands that
 * change it: start, result, undo and teams.
 */
module Tournament {
  import opened Wrappers
  import opened Text
  import opened Contributions
  import opened Matches
  import opened Tallies
  import opened Rosters

  /** What the teams command replies. */
  datatype TeamsOutcome = MissingPlayers | Saved | NumberError(error: RosterError)

  /** The tallies hold exactly the goals and assists that the matches ms credit. */
  ghost predicate Consistent(ms: seq<Match>, goals: Tally, assists: Tally)
  {
    Represents(goals, Goals(AllCredited(ms))) && Represents(assists, Assists(AllCredited(ms)))
  }

  /** Crediting what a new match credits keeps the tallies consistent with the longer history. */
  lemma RecordPreserves(ms: seq<Match>, m: Match, goals: Tally, assists: Tally, goals': Tally, assists': Tally)
    requires Consistent(ms, goals, assists) && Positive(goals') && Positive(assists')
    requires forall name :: Count(goals', name) == Count(goals, name) + Goals(Credited(m))[name]
    requires forall name :: Count(assists', name) == Count(assists, name) + Assists(Credited(m))[name]
    ensures Consistent(ms + [m], goals', assists')
  {
    AllCreditedSnoc(ms, m);
    CreditRepresents(goals, goals', Goals(AllCredited(ms)), Goals(Credited(m)));
    CreditRepresents(assists, assists', Assists(AllCredited(ms)), Assists(Credited(m)));
    GoalsConcat(AllCredited(ms), Credited(m));
    AssistsConcat(AllCredited(ms), Credited(m));
  }

  /** A match with a list that raises credits no goal and no assist. */
  lemma NothingCredited(m: Match)
    requires MatchContributions(m).Failure?
    ensures forall name :: Goals(Credited(m))[name] == 0 && Assists(Credited(m))[name] == 0
  {
    assert Credited(m) == [];
  }

  /**
   * Taking back exactly what the last match credits keeps the tallies
   * consistent with the shorter history, and no count was floored: each
   * old count is the new one plus what the match credited.
   */
  lemma UndoPreserves(ms: seq<Match>, goals: Tally, assists: Tally, goals': Tally, assists': Tally)
    requires ms != [] && Consistent(ms, goals, assists) && Positive(goals') && Positive(assists')
    requires forall name :: Count(goals', name) == Monus(Count(goals, name), Goals(Credited(ms[|ms| - 1]))[name])
    requires forall name :: Count(assists', name) == Monus(Count(assists, name), Assists(Credited(ms[|ms| - 1]))[name])
    ensures Consistent(ms[..|ms| - 1], goals', assists')
    ensures forall name :: Count(goals, name) == Count(goals', name) + Goals(Credited(ms[|ms| - 1]))[name]
    ensures forall name :: Count(assists, name) == Count(assists', name) + Assists(Credited(ms[|ms| - 1]))[name]
  {
    var rest, last := ms[..|ms| - 1], ms[|ms| - 1];
    assert ms == rest + [last];
    AllCreditedSnoc(rest, last);
    GoalsConcat(AllCredited(rest), Credited(last));
    AssistsConcat(AllCredited(rest), Credited(last));
    DebitRepresents(goals, goals', Goals(AllCredited(rest)), Goals(Credited(last)));
    DebitRepresents(assists, assists', Assists(AllCredited(rest)), Assists(Credited(last)));
  }

  /**
   * The tally part of the undo command as written: parse players1 and
   * remove its entries, then parse players2 and remove its entries; the
   * first list that raises ends it, with what was removed so far staying
   * removed.
   */
  method RemovePlayersAsWritten(goals: Tally, assists: Tally, m: Match)
    returns (goals': Tally, assists': Tally, failure: Option<ParseError>)
    requires Positive(goals) && Positive(assists)
    ensures Positive(goals') && Positive(assists')
    ensures failure == (match MatchContributions(m) case Failure(e) => Some(e) case Success(_) => None)
    ensures forall name :: Count(goals', name) == Monus(Count(goals, name), Goals(DebitedAsWritten(m))[name])
    ensures forall name :: Count(assists', name) == Monus(Count(assists, name), Assists(DebitedAsWritten(m))[name])
  {
    var first := ParsePlayersLoop(m.players1);
    if first.Failure? {
      return goals, assists, Some(first.error);
    }
    goals', assists' := Debit(goals, assists, first.value);
    var second := ParsePlayersLoop(m.players2);
    if second.Failure? {
      return goals', assists', Some(second.error);
    }
    ghost var g1, a1 := goals', assists';
    goals', assists' := Debit(goals', assists', second.value);
    DebitTwice(goals, g1, goals', Goals(first.value), Goals(second.value));
    DebitTwice(assists, a1, assists', Assists(first.value), Assists(second.value));
    GoalsConcat(first.value, second.value);
    AssistsConcat(first.value, second.value);
    failure := None;
  }

  /**
   * The tally part of the result command on the history ms: parse both
   * lists, the first list first, and credit every entry only when neither
   * raises. Tallies that agreed with ms agree with the longer history.
   */
  method CreditMatch(ms: seq<Match>, goals: Tally, assists: Tally, m: Match)
    returns (r: Result<seq<Contribution>, ParseError>, goals': Tally, assists': Tally)
    requires Positive(goals) && Positive(assists)
    ensures Positive(goals') && Positive(assists')
    ensures r == MatchContributions(m)
    ensures forall name :: Count(goals', name) == Count(goals, name) + Goals(Credited(m))[name]
    ensures forall name :: Count(assists', name) == Count(assists, name) + Assists(Credited(m))[name]
    ensures Consistent(ms, goals, assists) ==> Consistent(ms + [m], goals', assists')
  {
    r := ParseMatch(m);
    if r.Success? {
      assert Credited(m) == r.value;
      goals', assists' := Credit(goals, assists, r.value);
    } else {
      NothingCredited(m);
      goals', assists' := goals, assists;
    }
    if Consistent(ms, goals, assists) {
      RecordPreserves(ms, m, goals, assists, goals', assists');
    }
  }

  /**
   * The tally part of the corrected undo for the last match of ms: parse
   * both lists first, and take back every entry only when neither raises.
   * Counts are floored at zero; on tallies that agreed with ms nothing is
   * floored and they agree with the shorter history.
   */
  method UncreditLast(ms: seq<Match>, goals: Tally, assists: Tally) returns (goals': Tally, assists': Tally)
    requires ms != [] && Positive(goals) && Positive(assists)
    ensures Positive(goals') && Positive(assists')
    ensures forall name :: Count(goals', name) == Monus(Count(goals, name), Goals(Credited(ms[|ms| - 1]))[name])
    ensures forall name :: Count(assists', name) == Monus(Count(assists, name), Assists(Credited(ms[|ms| - 1]))[name])
    ensures Consistent(ms, goals, assists) ==>
      && Consistent(ms[..|ms| - 1], goals', assists')
      && (forall name :: Count(goals, name) == Count(goals', name) + Goals(Credited(ms[|ms| - 1]))[name])
      && (forall name :: Count(assists, name) == Count(assists', name) + Assists(Credited(ms[|ms| - 1]))[name])
  {
    var last := ms[|ms| - 1];
    var contributions := ParseMatch(last);
    if contributions.Success? {
      assert Credited(last) == contributions.value;
      goals', assists' := Debit(goals, assists, contributions.value);
    } else {
      NothingCredited(last);
      goals', assists' := goals, assists;
    }
    if Consistent(ms, goals, assists) {
      UndoPreserves(ms, goals, assists, goals', assists');
    }
  }

  /**
   * The tally part of the undo command as written, on the history ms: what
   * RemovePlayersAsWritten leaves of the last match's entries. When
   * players1 raises, or neither list does, that is what the match
   * credited, so tallies that agreed with ms agree with the shorter history.
   */
  method UncreditLastAsWritten(ms: seq<Match>, goals: Tally, assists: Tally)
    returns (goals': Tally, assists': Tally, failure: Option<ParseError>)
    requires ms != [] && Positive(goals) && Positive(assists)
    ensures Positive(goals') && Positive(assists')
    ensures failure == (match MatchContributions(ms[|ms| - 1]) case Failure(e) => Some(e) case Success(_) => None)
    ensures Lowered(goals, goals', Goals(DebitedAsWritten(ms[|ms| - 1])))
    ensures Lowered(assists, assists', Assists(DebitedAsWritten(ms[|ms| - 1])))
    ensures (Consistent(ms, goals, assists) &&
             (ParsePlayers(ms[|ms| - 1].players1).Failure? || MatchContributions(ms[|ms| - 1]).Success?)) ==>
      Consistent(ms[..|ms| - 1], goals', assists')
  {
    var last := ms[|ms| - 1];
    goals', assists', failure := RemovePlayersAsWritten(goals, assists, last);
    if Consistent(ms, goals, assists) &&
      (ParsePlayers(last.players1).Failure? || MatchContributions(last).Success?)
    {
      DebitedAsWrittenCredited(last);
      UndoPreserves(ms, goals, assists, goals', assists');
    }
  }

  /** Recording ms[i] after ms[..i] raises every count by what ms[..i + 1] credits in all. */
  lemma RecordAllStep(ms: seq<Match>, i: nat, g0: Tally, g1: Tally, g2: Tally, a0: Tally, a1: Tally, a2: Tally)
    requires i < |ms|
    requires forall name :: Count(g1, name) == Count(g0, name) + Goals(AllCredited(ms[..i]))[name]
    requires forall name :: Count(g2, name) == Count(g1, name) + Goals(Credited(ms[i]))[name]
    requires forall name :: Count(a1, name) == Count(a0, name) + Assists(AllCredited(ms[..i]))[name]
    requires forall name :: Count(a2, name) == Count(a1, name) + Assists(Credited(ms[i]))[name]
    ensures forall name :: Count(g2, name) == Count(g0, name) + Goals(AllCredited(ms[..i + 1]))[name]
    ensures forall name :: Count(a2, name) == Count(a0, name) + Assists(AllCredited(ms[..i + 1]))[name]
  {
    assert ms[..i + 1] == ms[..i] + [ms[i]];
    AllCreditedSnoc(ms[..i], ms[i]);
    GoalsConcat(AllCredited(ms[..i]), Credited(ms[i]));
    AssistsConcat(AllCredited(ms[..i]), Credited(ms[i]));
  }

  /**
   * Undoing the last match of ms and then the last k - 1 matches of the rest
   * takes back, floored at zero, what the last k matches of ms credit.
   */
  lemma UndoTimesStep(ms: seq<Match>, k: nat, g0: Tally, g1: Tally, g2: Tally, a0: Tally, a1: Tally, a2: Tally)
    requires 0 < k <= |ms|
    requires forall name :: Count(g1, name) == Monus(Count(g0, name), Goals(Credited(ms[|ms| - 1]))[name])
    requires forall name :: Count(a1, name) == Monus(Count(a0, name), Assists(Credited(ms[|ms| - 1]))[name])
    requires forall name :: Count(g2, name) == Monus(Count(g1, name), Goals(CreditedLast(ms[..|ms| - 1], k - 1))[name])
    requires forall name :: Count(a2, name) == Monus(Count(a1, name), Assists(CreditedLast(ms[..|ms| - 1], k - 1))[name])
    ensures forall name :: Count(g2, name) == Monus(Count(g0, name), Goals(CreditedLast(ms, k))[name])
    ensures forall name :: Count(a2, name) == Monus(Count(a0, name), Assists(CreditedLast(ms, k))[name])
  {
    var last, earlier := Credited(ms[|ms| - 1]), CreditedLast(ms[..|ms| - 1], k - 1);
    assert CreditedLast(ms, k) == earlier + last;
    GoalsConcat(earlier, last);
    DebitTwice(g0, g1, g2, Goals(last), Goals(earlier));
    assert Goals(last) + Goals(earlier) == Goals(CreditedLast(ms, k));
    AssistsConcat(earlier, last);
    DebitTwice(a0, a1, a2, Assists(last), Assists(earlier));
    assert Assists(last) + Assists(earlier) == Assists(CreditedLast(ms, k));
  }

  /** One chat's tournament: the data dict that get_chat_data returns. */
  class ChatState {
    var matches: seq<Match>
    var scorers: Tally
    var playmakers: Tally
    var teams: map<string, seq<string>>

    /**
     * What every command keeps, the as-written undo included: a name is in
     * a tally only with a count of at least one (+1 from absent, -1 with
     * deletion at zero).
     */
    ghost predicate Valid()
      reads this
    {
      Positive(scorers) && Positive(playmakers)
    }

    /** The tallies hold exactly the goals and assists that the stored matches credit. */
    ghost predicate Agrees()
      reads this
    {
      Consistent(matches, scorers, playmakers)
    }

    /** {"matches": [], "scorers": {}, "playmakers": {}, "teams": {}} */
    constructor ()
      ensures Valid() && Agrees()
      ensures matches == [] && scorers == map[] && playmakers == map[] && teams == map[]
    {
      matches, scorers, playmakers, teams := [], map[], map[], map[];
    }

    /**
     * The result command, from the parsed tuple on: the match is appended
     * first, then both player lists are parsed; if one raises, the match
     * stays appended and no tally changes. Otherwise every entry credits
     * its scorer and assistant.
     */
    method RecordResult(m: Match) returns (r: Result<seq<Contribution>, ParseError>)
      requires Valid()
      modifies this
      ensures Valid() && (old(Agrees()) ==> Agrees())
      ensures matches == old(matches) + [m] && teams == old(teams)
      ensures r == MatchContributions(m)
      ensures forall name :: Count(scorers, name) == Count(old(scorers), name) + Goals(Credited(m))[name]
      ensures forall name :: Count(playmakers, name) == Count(old(playmakers), name) + Assists(Credited(m))[name]
    {
      var goals, assists;
      r, goals, assists := CreditMatch(matches, scorers, playmakers, m);
      matches, scorers, playmakers := matches + [m], goals, assists;
    }

    /**
     * The undo command with both lists parsed before any tally changes, as
     * result does: nothing happens on an empty history; otherwise the last
     * match is popped and what it credited is taken back, floored at zero.
     * When the tallies agreed with the matches nothing is floored.
     */
    method Undo() returns (popped: Option<Match>)
      requires Valid()
      modifies this
      ensures Valid() && (old(Agrees()) ==> Agrees()) && teams == old(teams)
      ensures old(matches) == [] ==>
        popped == None && matches == old(matches) && scorers == old(scorers) && playmakers == old(playmakers)
      ensures old(matches) != [] ==>
        popped == Some(old(matches)[|old(matches)| - 1]) && matches == old(matches)[..|old(matches)| - 1]
      ensures popped.Some? ==>
        forall name :: Count(scorers, name) == Monus(Count(old(scorers), name), Goals(Credited(popped.value))[name])
      ensures popped.Some? ==>
        forall name :: Count(playmakers, name) == Monus(Count(old(playmakers), name), Assists(Credited(popped.value))[name])
      ensures popped.Some? && old(Agrees()) ==>
        forall name :: Count(old(scorers), name) == Count(scorers, name) + Goals(Credited(popped.value))[name]
      ensures popped.Some? && old(Agrees()) ==>
        forall name :: Count(old(playmakers), name) == Count(playmakers, name) + Assists(Credited(popped.value))[name]
    {
      if matches == [] {
        return None;
      }
      var last := matches[|matches| - 1];
      scorers, playmakers := UncreditLast(matches, scorers, playmakers);
      matches := matches[..|matches| - 1];
      popped := Some(last);
    }

    /**
     * The undo command as written: pop the last match, then parse and debit
     * players1, then parse and debit players2; a list that raises stops the
     * command where it is. The tallies lose exactly DebitedAsWritten(last),
     * floored at zero. Agreement survives when both lists parse or players1
     * does not; UndoAsWrittenDropsEarlierGoal shows the other case.
     */
    method UndoAsWritten() returns (popped: Option<Match>, failure: Option<ParseError>)
      requires Valid()
      modifies this
      ensures Valid() && teams == old(teams)
      ensures old(matches) == [] ==>
        popped == None && failure == None &&
        matches == old(matches) && scorers == old(scorers) && playmakers == old(playmakers)
      ensures old(matches) != [] ==>
        popped == Some(old(matches)[|old(matches)| - 1]) && matches == old(matches)[..|old(matches)| - 1]
      ensures popped.Some? ==>
        failure == (match MatchContributions(popped.value) case Failure(e) => Some(e) case Success(_) => None)
      ensures popped.Some? ==> Lowered(old(scorers), scorers, Goals(DebitedAsWritten(popped.value)))
      ensures popped.Some? ==> Lowered(old(playmakers), playmakers, Assists(DebitedAsWritten(popped.value)))
      ensures old(Agrees()) && (popped.None? || ParsePlayers(popped.value.players1).Failure? || MatchContributions(popped.value).Success?) ==>
        Agrees()
    {
      if matches == [] {
        return None, None;
      }
      var last := matches[|matches| - 1];
      scorers, playmakers, failure := UncreditLastAsWritten(matches, scorers, playmakers);
      matches := matches[..|matches| - 1];
      popped := Some(last);
    }

    /**
     * The teams command: with no arguments it only replies; otherwise each
     * line of the text after the command runs through the roster loop from
     * current_team_index = -1, appending kept lines to their team's list.
     * A header number that int() rejects stops the loop, keeping what was
     * appended before it.
     */
    method SetRosters(args: seq<string>, text: string) returns (outcome: TeamsOutcome)
      modifies this
      ensures matches == old(matches) && scorers == old(scorers) && playmakers == old(playmakers)
      ensures args == [] ==> outcome == MissingPlayers && teams == old(teams)
      ensures args != [] ==>
        var a := Assign(Split(text, '\n'), -1);
        teams == AddPlayers(old(teams), a.kept) &&
        outcome == (if a.failed.Some? then NumberError(a.failed.value) else Saved)
    {
      if args == [] {
        return MissingPlayers;
      }
      var failed;
      teams, failed := PlaceLines(teams, Split(text, '\n'));
      outcome := if failed.Some? then NumberError(failed.value) else Saved;
    }

    /**
     * result followed by the corrected undo leaves the matches and both
     * tallies exactly as they were, whether or not the tallies agreed with
     * the matches.
     */
    method RecordThenUndo(m: Match)
      requires Valid()
      modifies this
      ensures Valid()
      ensures matches == old(matches) && scorers == old(scorers) && playmakers == old(playmakers)
      ensures teams == old(teams)
    {
      ghost var s0, p0 := scorers, playmakers;
      var _ := RecordResult(m);
      var _ := Undo();
      CountsDetermine(scorers, s0);
      CountsDetermine(playmakers, p0);
    }

    /**
     * result followed by the undo as written leaves the matches and both
     * tallies exactly as they were, for every match whose players1 raises or
     * whose lists both parse: every match without a multi-'+' entry.
     */
    method RecordThenUndoAsWritten(m: Match)
      requires Valid()
      requires ParsePlayers(m.players1).Failure? || MatchContributions(m).Success?
      modifies this
      ensures Valid()
      ensures matches == old(matches) && scorers == old(scorers) && playmakers == old(playmakers)
      ensures teams == old(teams)
    {
      ghost var s0, p0 := scorers, playmakers;
      var _ := RecordResult(m);
      var _, _ := UndoAsWritten();
      DebitedAsWrittenCredited(m);
      CountsDetermine(scorers, s0);
      CountsDetermine(playmakers, p0);
    }

    /**
     * Recording each match of ms in turn appends them all and raises every
     * count by what they credit in all, whether or not the tallies agreed
     * with the matches.
     */
    method RecordAll(ms: seq<Match>)
      requires Valid()
      modifies this
      ensures Valid() && (old(Agrees()) ==> Agrees())
      ensures matches == old(matches) + ms && teams == old(teams)
      ensures forall name :: Count(scorers, name) == Count(old(scorers), name) + Goals(AllCredited(ms))[name]
      ensures forall name :: Count(playmakers, name) == Count(old(playmakers), name) + Assists(AllCredited(ms))[name]
    {
      for i := 0 to |ms|
        invariant Valid() && (old(Agrees()) ==> Agrees())
        invariant matches == old(matches) + ms[..i] && teams == old(teams)
        invariant forall name :: Count(scorers, name) == Count(old(scorers), name) + Goals(AllCredited(ms[..i]))[name]
        invariant forall name :: Count(playmakers, name) == Count(old(playmakers), name) + Assists(AllCredited(ms[..i]))[name]
      {
        SnocTake(old(matches), ms, i);
        ghost var g1, a1 := scorers, playmakers;
        var _ := RecordResult(ms[i]);
        RecordAllStep(ms, i, old(scorers), g1, scorers, old(playmakers), a1, playmakers);
      }
      assert ms[..|ms|] == ms;
    }

    /**
     * k corrected undos in a row pop the last k matches and take back,
     * floored at zero, what those matches credit.
     */
    method UndoTimes(k: nat)
      requires Valid() && k <= |matches|
      modifies this
      ensures Valid() && (old(Agrees()) ==> Agrees())
      ensures matches == old(matches)[..|old(matches)| - k] && teams == old(teams)
      ensures forall name :: Count(scorers, name) == Monus(Count(old(scorers), name), Goals(CreditedLast(old(matches), k))[name])
      ensures forall name :: Count(playmakers, name) == Monus(Count(old(playmakers), name), Assists(CreditedLast(old(matches), k))[name])
      decreases k
    {
      if k > 0 {
        ghost var ms, g0, a0 := matches, scorers, playmakers;
        var _ := Undo();
        ghost var g1, a1 := scorers, playmakers;
        UndoTimes(k - 1);
        UndoTimesStep(ms, k, g0, g1, scorers, a0, a1, playmakers);
      }
    }

    /**
     * Any number of results followed by as many corrected undos returns the
     * chat to where it was: the first match recorded is the last undone.
     */
    method RecordAllThenUndoAll(ms: seq<Match>)
      requires Valid()
      modifies this
      ensures Valid()
      ensures matches == old(matches) && scorers == old(scorers) && playmakers == old(playmakers)
      ensures teams == old(teams)
      decreases |ms|
    {
      if ms != [] {
        ghost var s0, p0 := scorers, playmakers;
        var _ := RecordResult(ms[0]);
        RecordAllThenUndoAll(ms[1..]);
        var _ := Undo();
        CountsDetermine(scorers, s0);
        CountsDetermine(playmakers, p0);
      }
    }

    /**
     * The same with the undo as written, when no match has a players1 that
     * parses and a players2 that raises.
     */
    method RecordAllThenUndoAllAsWritten(ms: seq<Match>)
      requires Valid()
      requires forall i :: 0 <= i < |ms| ==> ParsePlayers(ms[i].players1).Failure? || MatchContributions(ms[i]).Success?
      modifies this
      ensures Valid()
      ensures matches == old(matches) && scorers == old(scorers) && playmakers == old(playmakers)
      ensures teams == old(teams)
      decreases |ms|
    {
      if ms != [] {
        ghost var s0, p0 := scorers, playmakers;
        var _ := RecordResult(ms[0]);
        RecordAllThenUndoAllAsWritten(ms[1..]);
        var _, _ := UndoAsWritten();
        DebitedAsWrittenCredited(ms[0]);
        CountsDetermine(scorers, s0);
        CountsDetermine(playmakers, p0);
      }
    }
  }

  /** The tournaments dict: chat id to that chat's state. */
  class Tournaments {
    var chats: map<int, ChatState>

    /** Every chat keeps positive counts. */
    ghost predicate Valid()
      reads this, chats.Values
    {
      forall id :: id in chats ==> chats[id].Valid()
    }

    constructor ()
      ensures Valid() && chats == map[]
    {
      chats := map[];
    }

    /** get_chat_data: the chat's state, created empty on first use. */
    method GetChatData(id: int) returns (s: ChatState)
      requires Valid()
      modifies this
      ensures Valid() && s.Valid()
      ensures id in old(chats) ==> s == old(chats)[id] && chats == old(chats)
      ensures id !in old(chats) ==>
        fresh(s) && chats == old(chats)[id := s] && s.Agrees() &&
        s.matches == [] && s.scorers == map[] && s.playmakers == map[] && s.teams == map[]
    {
      if id !in chats {
        s := new ChatState();
        chats := chats[id := s];
      } else {
        s := chats[id];
      }
    }

    /** The start command: the chat gets a new, empty tournament whatever it had before. */
    method Start(id: int) returns (s: ChatState)
      requires Valid()
      modifies this
      ensures Valid() && fresh(s) && chats == old(chats)[id := s] && s.Agrees()
      ensures s.matches == [] && s.scorers == map[] && s.playmakers == map[] && s.teams == map[]
    {
      s := new ChatState();
      chats := chats[id := s];
    }
  }

  /** A single name with no comma, no '+' and no surrounding white space parses to one goal without an assist. */
  lemma ParseSingleName(name: string)
    requires name != [] && !IsSpace(name[0]) && !IsSpace(name[|name| - 1])
    requires ',' !in name && '+' !in name
    ensures ParsePlayers(name) == Success([Contribution(name, None)])
  {
    StripTrimmed(name);
    SplitNoSeparator(name, ',');
    assert ParseEntry(name) == Success(Contribution(name, None));
    assert [name][1..] == [];
    assert ParseEntries([]) == Success([]);
    assert ParseEntries([name]) == Prepend([Contribution(name, None)], ParseEntries([]));
    assert [Contribution(name, None)] + [] == [Contribution(name, None)];
  }

  /** One entry x+y+z, a scorer with two assistants, makes the list raise. */
  lemma ParseTwoAssistants(x: string, y: string, z: string)
    requires '+' !in x && '+' !in y && '+' !in z
    requires ',' !in x + ['+'] + y + ['+'] + z
    ensures ParsePlayers(x + ['+'] + y + ['+'] + z).Failure?
  {
    var s := x + ['+'] + y + ['+'] + z;
    assert s[|x|] == '+';
    StripEmpty(s);
    SplitNoSeparator(s, ',');
    CountCharMember(x, '+');
    CountCharMember(y, '+');
    CountCharMember(z, '+');
    CountCharConcat(x, ['+'], '+');
    CountCharConcat(x + ['+'], y, '+');
    CountCharConcat(x + ['+'] + y, ['+'], '+');
    CountCharConcat(x + ['+'] + y + ['+'], z, '+');
    ParseEntrySpec(s);
  }

  /** A match whose players1 names one scorer. */
  const Earlier := Match("Brazil", 1, "Italy", 0, "Pele", "")

  /** The same scorer again, with a players2 entry that has two '+'. */
  const Malformed := Match("Brazil", 1, "Italy", 0, "Pele", "Kaka" + ['+'] + "Rai" + ['+'] + "Cafu")

  lemma OneGoal(name: string)
    requires name != ""
    ensures Goals([Contribution(name, None)]) == multiset{name}
  {
    assert [Contribution(name, None)][..0] == [];
  }

  /** A stored match whose players1 names one scorer and whose players2 is empty credits that scorer one goal. */
  lemma SingleScorerCredits(m: Match, name: string)
    requires name != "" && ParsePlayers(m.players1) == Success([Contribution(name, None)])
    requires Strip(m.players2) == ""
    ensures AllCredited([m]) == Credited(m)
    ensures Goals(Credited(m))[name] == 1
  {
    assert Credited(m) == [Contribution(name, None)];
    assert [m][..0] == [];
    OneGoal(name);
  }

  /**
   * A match whose players1 names one scorer and whose players2 raises
   * credits nothing, yet the as-written undo takes back that scorer's goal.
   */
  lemma MalformedCredits(m: Match, name: string)
    requires name != "" && ParsePlayers(m.players1) == Success([Contribution(name, None)])
    requires ParsePlayers(m.players2).Failure?
    ensures Credited(m) == [] && Goals(Credited(m))[name] == 0 && MatchContributions(m).Failure?
    ensures Goals(DebitedAsWritten(m))[name] == 1
  {
    assert DebitedAsWritten(m) == [Contribution(name, None)];
    OneGoal(name);
  }

  lemma PeleScores()
    ensures ParsePlayers("Pele") == Success([Contribution("Pele", None)])
  {
    ParseSingleName("Pele");
  }

  lemma ThreeNamesRaise()
    ensures ParsePlayers(Malformed.players2).Failure?
  {
    ParseTwoAssistants("Kaka", "Rai", "Cafu");
  }

  /**
   * The as-written undo against a match whose players1 parses and whose
   * players2 raises: that match credited nothing, yet undo takes a goal
   * from players1's scorer, who still has one credited by the earlier,
   * still stored match.
   */
  method UndoAsWrittenDropsEarlierGoal() returns (before: nat, after: nat, stillCredited: nat)
    ensures before == 1 && after == 0 && stillCredited == 1
  {
    PeleScores();
    ThreeNamesRaise();
    StripTrimmed("");
    SingleScorerCredits(Earlier, "Pele");
    MalformedCredits(Malformed, "Pele");
    var chat := new ChatState();
    var _ := chat.RecordResult(Earlier);
    var _ := chat.RecordResult(Malformed);
    before := Count(chat.scorers, "Pele");
    var _, _ := chat.UndoAsWritten();
    after := Count(chat.scorers, "Pele");
    stillCredited := Goals(AllCredited(chat.matches))["Pele"];
  }

  /** The corrected undo on the same two matches leaves the scorer's goal in place. */
  method UndoKeepsEarlierGoal() returns (before: nat, after: nat)
    ensures before == 1 && after == 1
  {
    PeleScores();
    ThreeNamesRaise();
    StripTrimmed("");
    SingleScorerCredits(Earlier, "Pele");
    MalformedCredits(Malformed, "Pele");
    var chat := new ChatState();
    var _ := chat.RecordResult(Earlier);
    var _ := chat.RecordResult(Malformed);
    before := Count(chat.scorers, "Pele");
    var _ := chat.Undo();
    after := Count(chat.scorers, "Pele");
  }
}
