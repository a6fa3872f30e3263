# Football tournament bookkeeping of a chat bot, in Dafny

`bot.py` is a chat bot that keeps score of an informal football tournament
in each chat. Around the chat, database and spreadsheet glue it has a small
bookkeeping core, and this project models that core and proves properties
of it:

- `parse_players` reads a contribution list such as `Messi+Xavi, Neymar`
  into ordered (scorer, assistant) pairs. It uses Python's `str.strip` and
  `str.split`, which are modelled as well.
- The per-chat state is the `tournaments` dict of
  `{matches, scorers, playmakers, teams}` records. The commands that change
  it are modelled: `get_chat_data`, `start`, `result` (from the parsed
  tuple on), `undo`, and the roster loop of `teams`.
- The `table` command folds the stored matches into per-team
  P/W/D/L/GF/GA/Pts/form records. It then sorts them with Python's stable
  `sorted` by (-Pts, -GD, -GF) and shows the last three form symbols.
- The `goals` and `assists` listings sort a tally by descending count. The
  MVP of the `end` command is everyone whose goals plus assists reach the
  maximum.

Modules:

- `Wrappers`: `Option` and `Result`.
- `Text`: `strip`, `split` and the white-space set of `str.isspace`.
- `Contributions`: `parse_players`, and the goal and assist multisets a
  list of pairs credits.
- `Matches`: the stored match tuple, and what a match credits.
- `Tallies`: the `scorers`/`playmakers` dicts, the crediting loop of
  `result` and the `remove_players` loop of `undo`.
- `Rosters`: the line loop of `teams`.
- `Tournament`: the `ChatState` and `Tournaments` classes and the commands.
- `Standings`: the `table` command.
- `Leaderboards`: the listings and the MVP.

Every command keeps `ChatState.Valid`: every name in `scorers` (and in
`playmakers`) has a count of at least 1. That is all the commands require,
so the model runs every command on every state the bot can reach.

A stronger property, `ChatState.Agrees` (`Tournament.Consistent`), holds
when each count equals the number of times the stored matches credit the
name as a non-empty scorer (assistant). `result` preserves it. The undo
that the code runs can break it (see "## Findings"). The corrected undo
preserves it. A result followed by an undo restores the state exactly, and
so do any number of results followed by as many undos. This holds for the
corrected undo in any state. It also holds for the undo as written, as long
as no match has a players1 that parses and a players2 that raises.

Three behaviours of the code are easy to miss, and the model keeps them:

- An entry with two or more `+` makes the tuple unpacking in
  `parse_players` raise. It is not split at the first `+`.
- A match is appended before its player lists are parsed. If one of them
  raises, the match stays stored and no tally changes. So recording a
  result is not all-or-nothing.
- The table is sorted by points, then by goal difference, then by goals
  for.

## Model

| member | source | states |
|---|---|---|
| Text.StripBounds | bot.py:28 | `strip()` returns the slice between the white space at both ends, and that slice has no white space at either end |
| Text.StripUnique | bot.py:28 | any slice with only white space around it and none at its own ends is what `strip()` returns |
| Text.StripEmpty | bot.py:28 | `strip()` is empty exactly when the input is all white space |
| Text.Split | bot.py:29 | `split(sep)` gives one more piece than there are separators; no piece holds the separator; joining the pieces with the separator gives back the input |
| Text.SplitJoin | bot.py:29 | splitting the join of separator-free pieces gives back the pieces |
| Contributions.ParseEntrySpec | bot.py:30-35 | an entry fails exactly when it holds two or more `+`; with no `+` it is the stripped entry as scorer and no assistant; with one `+` it is the stripped text on each side |
| Contributions.ParseEntriesSpec | bot.py:29-35 | the list parses exactly when every entry parses; then it has one pair per entry, in order, each the parse of its entry |
| Contributions.ParsePlayersSpec | bot.py:26-36 | blank input gives no pairs; otherwise the call raises exactly when some comma-separated entry has two or more `+`, and otherwise gives one pair per entry, in order |
| Contributions.ParsePlayersLoop | bot.py:26-36 | the loop as written returns what `ParsePlayers` specifies, including the raise at the first bad entry |
| Contributions.GoalsConcat | bot.py:168-170 | the goals credited by two lists together are the sum of what each credits |
| Contributions.AssistsConcat | bot.py:168-172 | the assists credited by two lists together are the sum of what each credits |
| Matches.ParseMatch | bot.py:168 | the two `parse_players` calls, players1 first; the first list that raises aborts |
| Matches.CreditedLastSuffix | bot.py:178-197 | what k undos take back, the last match's credits after those of the k - 1 before it, is what the last k stored matches credit as a history of their own |
| Matches.DebitedAsWrittenCredited | bot.py:182-197 | when players1 raises, or neither list raises, the as-written undo takes back exactly what the match credited |
| Tallies.CountsDetermine | bot.py:168-194 | two tallies with positive counts that give every name the same count are the same dict |
| Tallies.RepresentsUnique | bot.py:168-194 | two tallies that hold the same multiset of names are the same dict (a corollary of `CountsDetermine`) |
| Tallies.AddGoal | bot.py:169-170 | a non-empty scorer's count rises by one, every other count stays, and all counts stay positive |
| Tallies.AddAssist | bot.py:171-172 | a non-empty assistant's count rises by one, every other count stays, and all counts stay positive |
| Tallies.RemoveOne | bot.py:187-194 | a present non-empty name loses one and is deleted at zero; every other count stays; counts stay positive |
| Tallies.Credit | bot.py:168-172 | after the loop, each name's count is the old count plus the number of entries crediting it, and counts stay positive |
| Tallies.Debit | bot.py:185-194 | after the loop, each name's count is the old count minus the entries naming it, floored at zero, and counts stay positive |
| Tallies.DebitTwice | bot.py:196-197 | two floored debits in a row are one floored debit of their sum |
| Tallies.CreditRepresents | bot.py:168-172 | crediting a multiset to a tally that holds b gives one that holds b plus it |
| Tallies.DebitRepresents | bot.py:185-194 | debiting a multiset from a tally that holds b plus it gives one that holds b |
| Rosters.HeaderDigits | bot.py:140-142 | a header whose text before the first `.` is a run of digits has the number those digits spell |
| Rosters.SingleDigitHeader | bot.py:140-142 | a header `N.` with one digit N has number N, so it selects the team with index N - 1 |
| Rosters.TrailingUnderscoreHeader | bot.py:140-142 | a header whose digits end in `_` right before the `.` makes `int()` raise on that text |
| Rosters.Assign | bot.py:136-146 | every kept line belongs to one of the three labelled teams and is not blank |
| Rosters.AddPlayersSpec | bot.py:144-146 | each team's list grows by exactly its own kept lines, in order; other keys are untouched |
| Rosters.LinesBeforeHeaderIgnored | bot.py:136-146 | lines before the first header are dropped |
| Rosters.HeaderSelectsTeam | bot.py:136-146 | a header `N.` that `int()` accepts, followed by lines that are not headers and then by any further lines: the lines of the block are kept for team N when 1 <= N <= 3, stripped, in order and with blank lines skipped, and dropped otherwise; the further lines, from the next header on, are assigned as they would be on their own with team N - 1 current, and decide whether the loop fails |
| Rosters.PlayersFollow | bot.py:136-146 | a run of lines with no header, followed by any further lines: the run goes to the current team when its index is 0, 1 or 2, stripped, in order and with blank lines skipped, and is dropped otherwise; the further lines are assigned as they would be on their own |
| Rosters.ScanLinesAssign | bot.py:135-146 | scanning the lines left to right from index -1 keeps and fails exactly as `Assign` does |
| Rosters.PlaceLines | bot.py:133-146 | the loop leaves each team's list extended by its kept lines, and reports a header number that `int()` rejects |
| Tournament.RecordPreserves | bot.py:167-172 | crediting what a new match credits keeps the tallies consistent with the longer match list |
| Tournament.UndoPreserves | bot.py:182-194 | taking back what the last match credited keeps the tallies consistent with the shorter list, and no count was floored |
| Tournament.CreditMatch | bot.py:168-172 | the tally part of `result` on any positive tallies: the parse outcome of both lists, and each count raised by exactly what the match credits; tallies that agreed with the history agree with it extended by the match |
| Tournament.UncreditLast | bot.py:182-194 | the tally part of the corrected undo (both lists parsed first): each count loses what the last match credited, floored at zero; on tallies that agreed with the history nothing is floored and they agree with the shorter history |
| Tournament.UncreditLastAsWritten | bot.py:182-197 | the tally part of the undo as written: the error is the one the match's lists raise; each count loses, floored at zero, what was removed before the first raise; when players1 raises or both lists parse, tallies that agreed with the history agree with the shorter history |
| Tournament.RemovePlayersAsWritten | bot.py:185-197 | the two `remove_players` calls as written: counts lose exactly `DebitedAsWritten`, floored at zero, and a raising list is reported |
| Tournament.ChatState.constructor | bot.py:74 | a new chat has no matches, no tallies and no rosters, and its tallies agree with its matches |
| Tournament.ChatState.RecordResult | bot.py:167-172 | in any state the bot can reach: the match is appended; each count rises by exactly what the match credits (nothing when a list raises); rosters are unchanged; counts stay positive; agreement is kept |
| Tournament.ChatState.Undo | bot.py:178-197 | the corrected undo from "## Findings", not the code as written: on an empty list nothing changes; otherwise the last match is popped and what it credited is taken back, floored at zero; agreement is kept, and then nothing is floored |
| Tournament.ChatState.UndoAsWritten | bot.py:178-197 | the undo command as written, in any state the bot can reach: pops the last match and debits `DebitedAsWritten` of it, floored at zero; counts stay positive; agreement survives unless players1 parses and players2 raises |
| Tournament.ChatState.SetRosters | bot.py:129-146 | in any state: no arguments changes nothing; otherwise the rosters become the old ones plus the kept lines of the text, and a bad header number is reported; matches and tallies are untouched |
| Tournament.ChatState.RecordThenUndo | bot.py:167-197 | with the corrected undo from "## Findings": a result followed by an undo restores the matches and both tallies exactly, in any state |
| Tournament.ChatState.RecordThenUndoAsWritten | bot.py:167-197 | with the undo as written: a result followed by an undo restores the matches and both tallies exactly, for every match whose players1 raises or whose lists both parse |
| Tournament.RecordAllStep | bot.py:167-172 | one more result on top of a run of results raises each count by what the longer run credits in all |
| Tournament.UndoTimesStep | bot.py:178-197 | an undo followed by k - 1 more takes back, floored at zero, what the last k matches credit in all |
| Tournament.ChatState.RecordAll | bot.py:167-172 | in any state the bot can reach: recording each match in turn appends them all and raises each count by exactly what they credit together; counts stay positive and agreement is kept |
| Tournament.ChatState.UndoTimes | bot.py:178-197 | with the corrected undo from "## Findings", in any state the bot can reach: k undos pop the last k matches and take back, floored at zero, what those matches credit; counts stay positive and agreement is kept |
| Tournament.ChatState.RecordAllThenUndoAll | bot.py:167-197 | with the corrected undo from "## Findings": any number of results followed by as many undos restores the matches and both tallies exactly, in any state |
| Tournament.ChatState.RecordAllThenUndoAllAsWritten | bot.py:167-197 | with the undo as written: the same, when no match has a players1 that parses and a players2 that raises |
| Tournament.Tournaments.GetChatData | bot.py:72-75 | an existing chat's state is returned unchanged; an unknown chat gets a new empty state; every chat keeps positive counts |
| Tournament.Tournaments.Start | bot.py:120 | the chat gets a new empty state, whatever it had; other chats are unchanged |
| Tournament.ParseSingleName | bot.py:26-36 | one name with no comma, `+` or edge white space parses to one goal without an assist |
| Tournament.ParseTwoAssistants | bot.py:32 | an entry `x+y+z` makes the list raise |
| Tournament.MalformedCredits | bot.py:168-197 | a match whose players1 names one scorer and whose players2 raises credits nothing, yet the as-written undo takes back one goal |
| Tournament.UndoAsWrittenDropsEarlierGoal | bot.py:182-197 | after a good match and a malformed one by the same scorer, the as-written undo leaves the scorer with 0 goals although the stored match still credits 1 |
| Tournament.UndoKeepsEarlierGoal | bot.py:182-197 | the corrected undo on the same two matches leaves the scorer's one goal |
| Standings.Find | bot.py:212 | the position found holds the team, and there is none exactly when the team is absent |
| Standings.Sides | bot.py:221-239 | the two sides of a match are its two teams with their scores; exactly one wins and one loses unless the scores are equal, when both draw |
| Standings.TabulateBalanced | bot.py:209-239 | every row has P = W + D + L and Pts = 3W + D, and its form list holds W wins, D draws and L losses, even when team1 = team2 |
| Standings.TabulateTeams | bot.py:210-213 | the table has one row per team, in the order the teams first appear in the matches |
| Standings.FirstAppearancesSpec | bot.py:210-213 | the first-appearance list holds every team that played, each once |
| Standings.TabulateSum | bot.py:214-219 | each of the P, GF and GA columns sums over the rows to what the matches put into it |
| Standings.TabulateTotals | bot.py:214-219 | GF and GA both sum to the total of all scores, and P to two per match |
| Standings.SortRowsSpec | bot.py:241 | the sort is a permutation of the rows, and no row is listed below a row it is behind on (-Pts, -GD, -GF) |
| Standings.SortRowsStable | bot.py:241 | rows with equal keys keep their relative order |
| Standings.OrderedUnique | bot.py:241 | two ordered lists with the same rows of each key in the same order are equal, so `SortRows` is the one stable sort |
| Standings.Recent | bot.py:245 | `form[-3:]` has min(3, len) symbols and is the end of the form list |
| Standings.StandingSpec | bot.py:209-241 | the listed rows are the team rows, one per team in first-appearance order before sorting, ordered by the key, ties in first-appearance order, every row balanced |
| Standings.TableSpec | bot.py:205-246 | there is no table exactly when there are no matches; otherwise one line per team, each with P = W + D + L, Pts = 3W + D, GD = GF - GA and min(3, P) form symbols, lines by non-increasing (Pts, GD, GF) |
| Standings.TabulateLoop | bot.py:209-239 | the loop over the matches builds the table `Tabulate` specifies |
| Leaderboards.Ranking | bot.py:252-255 | every (name, count) pair of the tally appears exactly once, counts are non-increasing, and the listing is empty exactly when the tally is |
| Leaderboards.Mvp | bot.py:307-309 | the best score is the largest goals + assists over everyone in either tally (0 for none); the MVPs are exactly the players with that score; there are none only when nobody is in either tally |

## Left out

- Chat I/O is left out: the async handlers, the reply texts with their
  emoji, command dispatch and the `hello`/`opinion` handlers. The model
  returns the data a reply shows, not the text.
- SQLite persistence (`init_db` and the insert loop of `end`) and Google
  Sheets (`update_sheet`, `get_data_from_sheet`, `topscorers`,
  `playmakers`) are external I/O and are left out.
- Logging is left out.
- The regular expression and the `int(...)` calls of `result` are left
  out. `RecordResult` takes the parsed tuple; the scores are natural
  numbers because the pattern only matches digits.
- `SetRosters` takes the text after the command as a parameter. The
  `partition(" ")` of the message text is not modelled; `args` stands for
  `context.args`.
- Rosters.IsDigit: `str.isdigit` and `int()` are modelled on ASCII digits
  only. Python's `isdigit` is also true of non-decimal digits such as
  superscript two. On a line such as `². x`, bot.py takes the header branch
  and `int()` raises ValueError, ending the loop. The model treats that line
  as a player line instead. Python's `int()` also accepts the other Unicode
  decimal digits, which the model does not.
- Strings are sequences of code points. Nothing depends on Unicode
  normalisation, which is not modelled.
- Leaderboards.Ranking: names with equal counts come in an unspecified
  order. Python keeps the tally dict's insertion order, and a Dafny map has
  no order.
- Leaderboards.Mvp: returns the MVPs as a set. Python lists them in the
  iteration order of a set built from the dict keys, which the language
  does not fix.
- The `assists` listing (bot.py:264-267) is `Leaderboards.Ranking` applied
  to the assist tally; the model has one ranking for both listings.
- The `end` command's database writes and replies are left out. Its table
  is the `table` command's, and its MVP computation is modelled.

## Findings

| source | as written | input that shows it | evidently intended | confidence | as-written member | corrected member |
|---|---|---|---|---|---|---|
| bot.py:182-197 | `undo` pops the match, then parses and debits players1, then parses players2, which raises. `result` parsed both lists before crediting anything, so a match whose players2 raises credited nothing, but undo still debits its players1. | result `Brazil (Pele) 1-0 Italy`, then result `Brazil (Pele) 1-0 Italy (Kaka+Rai+Cafu)`, then undo: Pele's goal count goes from 1 to 0 although the stored first match still credits Pele a goal | undo takes back exactly what the popped match credited: parse both lists first and debit nothing if either raises, as `result` does | not executed | Tournament.UndoAsWrittenDropsEarlierGoal | Tournament.UndoKeepsEarlierGoal |
