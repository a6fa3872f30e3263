/** The match tuple the result command stores, and what a stored match credits to the tallies. */
module Matches {
  import opened Wrappers
  import opened Contributions

  /**
   * (team1, score1, team2, score2, players1, players2) as appended to the
   * chat's match list. The scores come from the \d+ groups of the result
   * pattern, so they are never negative; a missing player list is "".
   */
  datatype Match = Match(team1: string, score1: nat, team2: string, score2: nat, players1: string, players2: string)

  /** parse_players(players1) + parse_players(players2): the first list that raises aborts the expression. */
  function MatchContributions(m: Match): Result<seq<Contribution>, ParseError>
  {
    match ParsePlayers(m.players1)
    case Failure(e) => Failure(e)
    case Success(a) => Prepend(a, ParsePlayers(m.players2))
  }

  /** What recording the match credits to the tallies: nothing when either list raises. */
  function Credited(m: Match): seq<Contribution>
  {
    match MatchContributions(m)
    case Success(cs) => cs
    case Failure(_) => []
  }

  /** Everything the stored matches credit, oldest match first. */
  function AllCredited(ms: seq<Match>): seq<Contribution>
  {
    if ms == [] then [] else AllCredited(ms[..|ms| - 1]) + Credited(ms[|ms| - 1])
  }

  /** What the last k stored matches credit, oldest of them first: what k undos take back. */
  function CreditedLast(ms: seq<Match>, k: nat): seq<Contribution>
    requires k <= |ms|
  {
    if k == 0 then [] else CreditedLast(ms[..|ms| - 1], k - 1) + Credited(ms[|ms| - 1])
  }

  /**
   * What the undo command as written takes back from the tallies for a popped
   * match: it parses and debits players1, then parses and debits players2,
   * and a list that raises stops it there.
   */
  function DebitedAsWritten(m: Match): seq<Contribution>
  {
    match ParsePlayers(m.players1)
    case Failure(_) => []
    case Success(a) =>
      match ParsePlayers(m.players2)
      case Failure(_) => a
      case Success(b) => a + b
  }

  /** Storing one more match credits what it credits after everything before it. */
  lemma AllCreditedSnoc(ms: seq<Match>, m: Match)
    ensures AllCredited(ms + [m]) == AllCredited(ms) + Credited(m)
  {
    assert (ms + [m])[..|ms|] == ms;
  }

  /** The last k matches credit exactly what the suffix of k matches credits as a history of its own. */
  lemma {:induction false} CreditedLastSuffix(ms: seq<Match>, k: nat)
    requires k <= |ms|
    ensures CreditedLast(ms, k) == AllCredited(ms[|ms| - k..])
    decreases k
  {
    if k > 0 {
      var init, last, suffix := ms[..|ms| - 1], ms[|ms| - 1], ms[|ms| - k..];
      calc {
        CreditedLast(ms, k);
        CreditedLast(init, k - 1) + Credited(last);
        { CreditedLastSuffix(init, k - 1); }
        AllCredited(init[|init| - (k - 1)..]) + Credited(last);
        { SuffixInit(ms, k, init, suffix); }
        AllCredited(suffix[..|suffix| - 1]) + Credited(suffix[|suffix| - 1]);
        AllCredited(suffix);
      }
    } else {
      assert ms[|ms| - 0..] == [];
    }
  }

  lemma SuffixInit(ms: seq<Match>, k: nat, init: seq<Match>, suffix: seq<Match>)
    requires 0 < k <= |ms| && init == ms[..|ms| - 1] && suffix == ms[|ms| - k..]
    ensures suffix[..|suffix| - 1] == init[|init| - (k - 1)..]
    ensures suffix[|suffix| - 1] == ms[|ms| - 1]
  {
  }

  /** The two parse_players calls of the result command, the first list first. */
  method ParseMatch(m: Match) returns (r: Result<seq<Contribution>, ParseError>)
    ensures r == MatchContributions(m)
  {
    var first := ParsePlayersLoop(m.players1);
    if first.Failure? {
      return Failure(first.error);
    }
    var second := ParsePlayersLoop(m.players2);
    return Prepend(first.value, second);
  }

  /** When players1 raises, or neither list does, undo as written takes back what the match credited. */
  lemma DebitedAsWrittenCredited(m: Match)
    requires ParsePlayers(m.players1).Failure? || MatchContributions(m).Success?
    ensures DebitedAsWritten(m) == Credited(m)
  {
  }

  lemma SnocTake(a: seq<Match>, ms: seq<Match>, i: nat)
    requires i < |ms|
    ensures (a + ms[..i]) + [ms[i]] == a + ms[..i + 1]
  {
    assert ms[..i + 1] == ms[..i] + [ms[i]];
  }
}
