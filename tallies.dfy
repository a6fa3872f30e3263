/**
 * The per-chat goal and assist tallies (the scorers and playmakers dicts):
 * names mapped to positive counts, and the two loops that change them, the
 * crediting loop of the result command and remove_players of undo.
 */
module Tallies {
  import opened Contributions

  type Tally = map<string, nat>

  /** dict.get(name, 0). */
  function Count(t: Tally, name: string): nat
  {
    if name in t then t[name] else 0
  }

  ghost predicate Positive(t: Tally)
  {
    forall name :: name in t ==> t[name] >= 1
  }

  /** The tally holds exactly the multiset b: each name of b with its multiplicity, and no other name. */
  ghost predicate Represents(t: Tally, b: multiset<string>)
  {
    Positive(t) && forall name :: Count(t, name) == b[name]
  }

  /** Subtraction floored at zero. */
  function Monus(a: nat, b: nat): nat
  {
    if a >= b then a - b else 0
  }

  /** after is before with each name's count lowered by its multiplicity in removed, floored at zero. */
  ghost predicate Lowered(before: Tally, after: Tally, removed: multiset<string>)
  {
    forall name :: Count(after, name) == Monus(Count(before, name), removed[name])
  }

  /** A tally is fixed by its counts: two positive tallies that agree on every name are the same dict. */
  lemma CountsDetermine(t1: Tally, t2: Tally)
    requires Positive(t1) && Positive(t2)
    requires forall name :: Count(t1, name) == Count(t2, name)
    ensures t1 == t2
  {
    forall name ensures name in t1 <==> name in t2 {
      assert Count(t1, name) == Count(t2, name);
    }
    assert t1.Keys == t2.Keys;
    forall name | name in t1 ensures t1[name] == t2[name] {
      assert Count(t1, name) == Count(t2, name);
    }
  }

  /** A multiset has one tally: two tallies holding the same multiset are the same map. */
  lemma RepresentsUnique(t1: Tally, t2: Tally, b: multiset<string>)
    requires Represents(t1, b) && Represents(t2, b)
    ensures t1 == t2
  {
    CountsDetermine(t1, t2);
  }

  /** The goals one entry adds: one for its scorer, when the scorer is not empty. */
  function GoalIncrement(c: Contribution, name: string): nat
  {
    if c.scorer != "" && name == c.scorer then 1 else 0
  }

  /** The assists one entry adds: one for its assistant, when there is a non-empty one. */
  function AssistIncrement(c: Contribution, name: string): nat
  {
    if c.assistant.Some? && c.assistant.value != "" && name == c.assistant.value then 1 else 0
  }

  lemma CreditStep(cs: seq<Contribution>, i: nat)
    requires i < |cs|
    ensures forall name :: Goals(cs[..i + 1])[name] == Goals(cs[..i])[name] + GoalIncrement(cs[i], name)
    ensures forall name :: Assists(cs[..i + 1])[name] == Assists(cs[..i])[name] + AssistIncrement(cs[i], name)
  {
    assert cs[..i + 1][..i] == cs[..i];
    assert cs[..i + 1][i] == cs[i];
  }

  lemma TakeOneMore(cs: seq<Contribution>, i: nat)
    requires i < |cs|
    ensures Goals(cs[..i + 1]) == Goals(cs[..i]) + GoalOf(cs[i])
    ensures Assists(cs[..i + 1]) == Assists(cs[..i]) + AssistOf(cs[i])
  {
    assert cs[..i + 1][..i] == cs[..i];
  }

  /** Two floored debits in a row are one floored debit of their sum. */
  lemma DebitTwice(t0: Tally, t1: Tally, t2: Tally, x: multiset<string>, y: multiset<string>)
    requires forall name :: Count(t1, name) == Monus(Count(t0, name), x[name])
    requires forall name :: Count(t2, name) == Monus(Count(t1, name), y[name])
    ensures forall name :: Count(t2, name) == Monus(Count(t0, name), (x + y)[name])
  {
  }

  /** `if scorer: goals[scorer] = goals.get(scorer, 0) + 1` */
  function AddGoal(t: Tally, c: Contribution): (r: Tally)
    requires Positive(t)
    ensures Positive(r)
    ensures forall name :: Count(r, name) == Count(t, name) + GoalIncrement(c, name)
  {
    if c.scorer != "" then t[c.scorer := Count(t, c.scorer) + 1] else t
  }

  /** `if assistant: assists[assistant] = assists.get(assistant, 0) + 1` */
  function AddAssist(t: Tally, c: Contribution): (r: Tally)
    requires Positive(t)
    ensures Positive(r)
    ensures forall name :: Count(r, name) == Count(t, name) + AssistIncrement(c, name)
  {
    if c.assistant.Some? && c.assistant.value != "" then
      t[c.assistant.value := Count(t, c.assistant.value) + 1]
    else t
  }

  /** `if name and name in t: t[name] -= 1; if t[name] <= 0: del t[name]` */
  function RemoveOne(t: Tally, name: string): (r: Tally)
    requires Positive(t)
    ensures Positive(r)
    ensures forall n :: Count(r, n) == Monus(Count(t, n), if name != "" && n == name then 1 else 0)
  {
    if name != "" && name in t then
      var left := t[name] - 1;
      if left <= 0 then t - {name} else t[name := left]
    else t
  }

  /**
   * The loop of the result command: each entry adds one to its non-empty
   * scorer's goals and one to its non-empty assistant's assists
   * (data[k] = data.get(k, 0) + 1). Every other name keeps its count.
   */
  method Credit(goals: Tally, assists: Tally, cs: seq<Contribution>) returns (goals': Tally, assists': Tally)
    requires Positive(goals) && Positive(assists)
    ensures Positive(goals') && Positive(assists')
    ensures forall name :: Count(goals', name) == Count(goals, name) + Goals(cs)[name]
    ensures forall name :: Count(assists', name) == Count(assists, name) + Assists(cs)[name]
  {
    goals', assists' := goals, assists;
    for i := 0 to |cs|
      invariant Positive(goals') && Positive(assists')
      invariant forall name :: Count(goals', name) == Count(goals, name) + Goals(cs[..i])[name]
      invariant forall name :: Count(assists', name) == Count(assists, name) + Assists(cs[..i])[name]
    {
      CreditStep(cs, i);
      goals' := AddGoal(goals', cs[i]);
      assists' := AddAssist(assists', cs[i]);
    }
    assert cs[..|cs|] == cs;
  }

  /**
   * remove_players of the undo command: each entry whose non-empty scorer
   * (assistant) is present loses one goal (assist), and a name whose count
   * reaches zero is deleted. A count never goes below zero, so the result
   * is the old count minus the entries naming it, floored at zero.
   */
  method Debit(goals: Tally, assists: Tally, cs: seq<Contribution>) returns (goals': Tally, assists': Tally)
    requires Positive(goals) && Positive(assists)
    ensures Positive(goals') && Positive(assists')
    ensures forall name :: Count(goals', name) == Monus(Count(goals, name), Goals(cs)[name])
    ensures forall name :: Count(assists', name) == Monus(Count(assists, name), Assists(cs)[name])
  {
    goals', assists' := goals, assists;
    for i := 0 to |cs|
      invariant Positive(goals') && Positive(assists')
      invariant forall name :: Count(goals', name) == Monus(Count(goals, name), Goals(cs[..i])[name])
      invariant forall name :: Count(assists', name) == Monus(Count(assists, name), Assists(cs[..i])[name])
    {
      ghost var g0, a0 := goals', assists';
      goals' := RemoveOne(goals', cs[i].scorer);
      if cs[i].assistant.Some? {
        assists' := RemoveOne(assists', cs[i].assistant.value);
      }
      forall name ensures Count(goals', name) == Monus(Count(g0, name), GoalOf(cs[i])[name]) {
      }
      forall name ensures Count(assists', name) == Monus(Count(a0, name), AssistOf(cs[i])[name]) {
      }
      DebitTwice(goals, g0, goals', Goals(cs[..i]), GoalOf(cs[i]));
      DebitTwice(assists, a0, assists', Assists(cs[..i]), AssistOf(cs[i]));
      TakeOneMore(cs, i);
    }
    assert cs[..|cs|] == cs;
  }

  /** Adding c[name] to every count of a tally that holds b gives one that holds b + c. */
  lemma CreditRepresents(t: Tally, t': Tally, b: multiset<string>, c: multiset<string>)
    requires Represents(t, b) && Positive(t')
    requires forall name :: Count(t', name) == Count(t, name) + c[name]
    ensures Represents(t', b + c)
  {
  }

  /** Taking c[name] off every count of a tally that holds b + c gives one that holds b. */
  lemma DebitRepresents(t: Tally, t': Tally, b: multiset<string>, c: multiset<string>)
    requires Represents(t, b + c) && Positive(t')
    requires forall name :: Count(t', name) == Monus(Count(t, name), c[name])
    ensures Represents(t', b)
  {
  }
}
