/**
 * parse_players: the comma-separated contribution list of one team in a
 * match ("Messi+Xavi, Neymar") as an ordered list of (scorer, assistant)
 * pairs, and the goal and assist multisets such a list credits.
 */
module Contributions {
  import opened Wrappers
  import opened Text

  /** One entry of the list; the assistant is Python's None when the entry has no '+'. */
  datatype Contribution = Contribution(scorer: string, assistant: Option<string>)

  /** The tuple unpacking of an entry split on '+' raises ValueError unless there were exactly two parts. */
  datatype ParseError = TooManyPlus(entry: string)

  /** One comma-separated piece: stripped, then split on '+' when it holds one. */
  function ParseEntry(piece: string): Result<Contribution, ParseError>
  {
    var entry := Strip(piece);
    if '+' in entry then
      var parts := Split(entry, '+');
      if |parts| == 2 then Success(Contribution(Strip(parts[0]), Some(Strip(parts[1]))))
      else Failure(TooManyPlus(entry))
    else
      Success(Contribution(entry, None))
  }

  /** The pieces in order; the first piece that fails to unpack aborts the whole list. */
  function ParseEntries(pieces: seq<string>): Result<seq<Contribution>, ParseError>
  {
    if pieces == [] then Success([])
    else
      match ParseEntry(pieces[0])
      case Failure(e) => Failure(e)
      case Success(c) => Prepend([c], ParseEntries(pieces[1..]))
  }

  function Prepend(cs: seq<Contribution>, r: Result<seq<Contribution>, ParseError>): Result<seq<Contribution>, ParseError>
  {
    match r
    case Success(rest) => Success(cs + rest)
    case Failure(e) => Failure(e)
  }

  /** parse_players(scorer_str). */
  function ParsePlayers(s: string): Result<seq<Contribution>, ParseError>
  {
    if Strip(s) == "" then Success([]) else ParseEntries(Split(s, ','))
  }

  lemma {:induction false} NoPlusInSpace(s: string)
    requires AllSpace(s)
    ensures CountChar(s, '+') == 0
  {
    if s != [] {
      NoPlusInSpace(s[1..]);
    }
  }

  lemma {:induction false} NoPlusInSpaceMember(s: string)
    requires AllSpace(s)
    ensures '+' !in s
  {
    NoPlusInSpace(s);
    CountCharMember(s, '+');
  }

  /** Stripping white space keeps every '+'. */
  lemma StripKeepsPlus(piece: string)
    ensures CountChar(Strip(piece), '+') == CountChar(piece, '+')
  {
    var lo, hi := StripBounds(piece);
    var pre, entry, post := piece[..lo], piece[lo..hi], piece[hi..];
    assert piece == pre + entry + post;
    NoPlusInSpace(pre);
    NoPlusInSpace(post);
    CountCharConcat(pre + entry, post, '+');
    CountCharConcat(pre, entry, '+');
  }

  lemma TwoPieces(s: string, sep: char)
    requires CountChar(s, sep) == 1
    ensures s == Split(s, sep)[0] + [sep] + Split(s, sep)[1]
  {
    var parts := Split(s, sep);
    assert parts[1..] == [parts[1]];
  }

  /** A string with exactly one '+' is the text before it, the '+' and the text after it. */
  lemma SplitOnePlus(entry: string) returns (a: string, b: string)
    requires CountChar(entry, '+') == 1
    ensures Split(entry, '+') == [a, b] && entry == a + ['+'] + b
    ensures '+' !in a && '+' !in b
  {
    var parts := Split(entry, '+');
    a, b := parts[0], parts[1];
    TwoPieces(entry, '+');
    assert parts == [a, b];
  }

  /** White space around a one-'+' entry stays with the outer pieces when split on '+'. */
  lemma SplitPadded(pre: string, entry: string, post: string, a: string, b: string)
    requires AllSpace(pre) && AllSpace(post) && '+' !in a && '+' !in b && entry == a + ['+'] + b
    ensures Split(pre + entry + post, '+') == [pre + a, b + post]
  {
    NoPlusInSpaceMember(pre);
    NoPlusInSpaceMember(post);
    assert pre + entry + post == (pre + a) + ['+'] + (b + post);
    SplitPrefix(pre + a, b + post, '+');
    SplitNoSeparator(b + post, '+');
  }

  /** The pieces of an entry with one '+': white space, scorer text, '+', assistant text, white space. */
  lemma OnePlusLayout(piece: string) returns (pre: string, a: string, b: string, post: string)
    requires CountChar(piece, '+') == 1
    ensures AllSpace(pre) && AllSpace(post)
    ensures Split(Strip(piece), '+') == [a, b]
    ensures Split(piece, '+') == [pre + a, b + post]
  {
    var lo, hi := StripBounds(piece);
    var entry;
    pre, entry, post := piece[..lo], piece[lo..hi], piece[hi..];
    StripKeepsPlus(piece);
    a, b := SplitOnePlus(entry);
    assert piece == pre + entry + post;
    SplitPadded(pre, entry, post, a, b);
  }

  /** With exactly one '+', the scorer and assistant are the stripped text on either side of it. */
  lemma ParseEntryOnePlus(piece: string)
    requires CountChar(piece, '+') == 1
    ensures ParseEntry(piece) == Success(Contribution(Strip(Split(piece, '+')[0]), Some(Strip(Split(piece, '+')[1]))))
  {
    var pre, a, b, post := OnePlusLayout(piece);
    assert '+' in Strip(piece) by {
      StripKeepsPlus(piece);
      CountCharMember(Strip(piece), '+');
    }
    StripAfterSpace(pre, a);
    StripBeforeSpace(b, post);
  }

  /**
   * An entry fails exactly when it holds two or more '+'; with none it is a
   * scorer alone, with one it is the text on each side of the '+', each
   * stripped.
   */
  lemma ParseEntrySpec(piece: string)
    ensures ParseEntry(piece).Failure? <==> CountChar(piece, '+') > 1
    ensures CountChar(piece, '+') == 0 ==> ParseEntry(piece) == Success(Contribution(Strip(piece), None))
    ensures CountChar(piece, '+') == 1 ==>
      ParseEntry(piece) == Success(Contribution(Strip(Split(piece, '+')[0]), Some(Strip(Split(piece, '+')[1]))))
  {
    StripKeepsPlus(piece);
    CountCharMember(Strip(piece), '+');
    if CountChar(piece, '+') == 1 {
      ParseEntryOnePlus(piece);
    }
  }

  lemma {:induction false} ParseEntriesSpec(pieces: seq<string>)
    ensures ParseEntries(pieces).Success? <==> forall i :: 0 <= i < |pieces| ==> ParseEntry(pieces[i]).Success?
    ensures ParseEntries(pieces).Success? ==>
      |ParseEntries(pieces).value| == |pieces| &&
      forall i :: 0 <= i < |pieces| ==> ParseEntry(pieces[i]) == Success(ParseEntries(pieces).value[i])
  {
    if pieces != [] {
      ParseEntriesSpec(pieces[1..]);
      if ParseEntry(pieces[0]).Success? && ParseEntries(pieces[1..]).Success? {
        var c, rest := ParseEntry(pieces[0]).value, ParseEntries(pieces[1..]).value;
        forall i | 0 <= i < |pieces|
          ensures ParseEntry(pieces[i]) == Success(([c] + rest)[i])
        {
          if i > 0 { assert pieces[i] == pieces[1..][i - 1]; }
        }
      } else if ParseEntry(pieces[0]).Success? {
        var j :| 0 <= j < |pieces[1..]| && !ParseEntry(pieces[1..][j]).Success?;
        assert pieces[1..][j] == pieces[j + 1];
      }
    }
  }

  /**
   * parse_players: blank input gives no pairs; otherwise it fails exactly
   * when some comma-separated piece holds two or more '+', and succeeds with
   * one pair per piece, in order, each the parse of its piece.
   */
  lemma ParsePlayersSpec(s: string)
    ensures AllSpace(s) ==> ParsePlayers(s) == Success([])
    ensures !AllSpace(s) ==>
      (ParsePlayers(s).Failure? <==> exists i :: 0 <= i < |Split(s, ',')| && CountChar(Split(s, ',')[i], '+') > 1)
    ensures !AllSpace(s) && ParsePlayers(s).Success? ==>
      |ParsePlayers(s).value| == |Split(s, ',')| &&
      forall i :: 0 <= i < |Split(s, ',')| ==> ParseEntry(Split(s, ',')[i]) == Success(ParsePlayers(s).value[i])
  {
    StripEmpty(s);
    if !AllSpace(s) {
      var pieces := Split(s, ',');
      assert ParsePlayers(s) == ParseEntries(pieces);
      ParseEntriesSpec(pieces);
      forall i | 0 <= i < |pieces| ensures ParseEntry(pieces[i]).Failure? <==> CountChar(pieces[i], '+') > 1 {
        ParseEntrySpec(pieces[i]);
      }
      if ParsePlayers(s).Failure? {
        var i :| 0 <= i < |pieces| && !ParseEntry(pieces[i]).Success?;
        assert CountChar(pieces[i], '+') > 1;
        assert exists j :: 0 <= j < |Split(s, ',')| && CountChar(Split(s, ',')[j], '+') > 1 by {
          assert pieces == Split(s, ',');
        }
      } else {
        forall i | 0 <= i < |pieces| ensures CountChar(pieces[i], '+') <= 1 {
          assert ParseEntry(pieces[i]).Success?;
        }
      }
    }
  }

  /** parse_players as the loop it is written as, checked against ParsePlayers. */
  method ParsePlayersLoop(s: string) returns (r: Result<seq<Contribution>, ParseError>)
    ensures r == ParsePlayers(s)
  {
    var players: seq<Contribution> := [];
    if Strip(s) != "" {
      var pieces := Split(s, ',');
      assert pieces[0..] == pieces;
      assert Prepend([], ParseEntries(pieces)) == ParseEntries(pieces) by {
        if ParseEntries(pieces).Success? { assert [] + ParseEntries(pieces).value == ParseEntries(pieces).value; }
      }
      var i := 0;
      while i < |pieces|
        invariant 0 <= i <= |pieces|
        invariant ParsePlayers(s) == Prepend(players, ParseEntries(pieces[i..]))
      {
        assert pieces[i..][0] == pieces[i];
        assert pieces[i..][1..] == pieces[i + 1..];
        match ParseEntry(pieces[i])
        case Failure(e) =>
          return Failure(e);
        case Success(c) =>
          var rest := ParseEntries(pieces[i + 1..]);
          if rest.Success? {
            assert players + ([c] + rest.value) == (players + [c]) + rest.value;
          }
          players := players + [c];
        i := i + 1;
      }
      assert players + [] == players;
    }
    return Success(players);
  }

  /** The non-empty scorer names credited by one entry (Python's `if scorer:`). */
  function GoalOf(c: Contribution): multiset<string>
  {
    if c.scorer != "" then multiset{c.scorer} else multiset{}
  }

  /** The non-empty assistant name credited by one entry (Python's `if assistant:`). */
  function AssistOf(c: Contribution): multiset<string>
  {
    match c.assistant
    case Some(a) => if a != "" then multiset{a} else multiset{}
    case None => multiset{}
  }

  /** Goals credited by a list: each non-empty scorer once per entry naming them. */
  function Goals(cs: seq<Contribution>): multiset<string>
  {
    if cs == [] then multiset{} else Goals(cs[..|cs| - 1]) + GoalOf(cs[|cs| - 1])
  }

  /** Assists credited by a list: each non-empty assistant once per entry naming them. */
  function Assists(cs: seq<Contribution>): multiset<string>
  {
    if cs == [] then multiset{} else Assists(cs[..|cs| - 1]) + AssistOf(cs[|cs| - 1])
  }

  /** Dropping the last element of a + b, for b not empty. */
  lemma ConcatLast<T>(a: seq<T>, b: seq<T>)
    requires b != []
    ensures a + b != [] && (a + b)[..|a + b| - 1] == a + b[..|b| - 1] && (a + b)[|a + b| - 1] == b[|b| - 1]
  {
  }

  /** Crediting two lists one after the other credits their concatenation. */
  lemma {:induction false} GoalsConcat(a: seq<Contribution>, b: seq<Contribution>)
    ensures Goals(a + b) == Goals(a) + Goals(b)
  {
    if b == [] {
      assert a + b == a;
    } else {
      ConcatLast(a, b);
      GoalsConcat(a, b[..|b| - 1]);
    }
  }

  lemma {:induction false} AssistsConcat(a: seq<Contribution>, b: seq<Contribution>)
    ensures Assists(a + b) == Assists(a) + Assists(b)
  {
    if b == [] {
      assert a + b == a;
    } else {
      ConcatLast(a, b);
      AssistsConcat(a, b[..|b| - 1]);
    }
  }
}
