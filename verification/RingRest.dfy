/** Coming to rest: every reachable state leads to a settled one without further deaths, and a settled state
    stays settled until somebody dies. */
module RingRest {
  import opened Types
  import opened Ring
  import opened RingPicture
  import opened RingRuns
  import opened RingTheorems
  import opened RingOutcomes

  // ---------------------------------------------------------------- extending runs

  lemma {:induction false} RunExtends(s: Net, actions: seq<Action>, action: Action)
    requires IsRun(s, actions) && Allowed(After(s, actions), action)
    ensures IsRun(s, actions + [action])
    ensures After(s, actions + [action]) == Apply(After(s, actions), action)
    decreases |actions|
  {
    var all := actions + [action];
    if actions == [] {
      assert all[1..] == [];
    } else {
      RunExtends(Apply(s, actions[0]), actions[1..], action);
      assert all[1..] == actions[1..] + [action];
    }
  }

  lemma ReachableInitial(ring: nat)
    requires ring >= 2
    ensures Reachable(Initial(ring))
  {
    var none: seq<Action> := [];
    assert IsRun(Initial(ring), none) && After(Initial(ring), none) == Initial(ring);
  }

  lemma ReachableBy(ring: nat, actions: seq<Action>)
    requires ring >= 2 && IsRun(Initial(ring), actions)
    ensures var s := After(Initial(ring), actions); s.size == ring && Reachable(s)
  {
    InitialDepicted(ring);
    RunDepicted(Start(ring), Initial(ring), actions);
  }

  lemma ReachableStep(s: Net, action: Action)
    requires Reachable(s) && Allowed(s, action)
    ensures Reachable(Apply(s, action)) && Apply(s, action).size == s.size
  {
    var actions :| IsRun(Initial(s.size), actions) && s == After(Initial(s.size), actions);
    RunExtends(Initial(s.size), actions, action);
    ReachableBy(s.size, actions + [action]);
  }

  // ---------------------------------------------------------------- rest

  /** The number of steps left is bounded by the rank. */
  lemma {:induction false} RestFrom(a: Progress, s: Net) returns (actions: seq<Action>)
    requires Depicts(a, s) && Reachable(s)
    ensures IsRun(s, actions) && Settled(After(s, actions)) && After(s, actions).dead == s.dead
    ensures Rank(a) + |actions| <= 7 * s.size - 3
    decreases 7 * s.size - Rank(a)
  {
    RankBound(a);
    if Settled(s) {
      actions := [];
    } else {
      var action := Progresses(s);
      StepDepicted(a, s, action);
      RankGrows(a, s, action);
      ReachableStep(s, action);
      RankBound(Next(a, action));
      var rest := RestFrom(Next(a, action), Apply(s, action));
      RunCons(s, action, rest);
      actions := [action] + rest;
    }
  }

  lemma RunCons(s: Net, action: Action, rest: seq<Action>)
    requires Allowed(s, action) && IsRun(Apply(s, action), rest)
    ensures IsRun(s, [action] + rest) && Same(After(s, [action] + rest), After(Apply(s, action), rest))
  {
    Cons(action, rest);
  }

  /** From every reachable state the ring can come to rest without further deaths, within 7N - 3 steps. */
  lemma ComesToRest(s: Net) returns (actions: seq<Action>)
    requires Reachable(s)
    ensures IsRun(s, actions) && Settled(After(s, actions)) && After(s, actions).dead == s.dead
    ensures |actions| <= 7 * s.size - 3
  {
    var a := ReachableDepicted(s);
    actions := RestFrom(a, s);
  }

  /** Rest is final: nothing but a first death can happen in a settled state. */
  lemma RestIsFinal(s: Net, action: Action)
    requires Reachable(s) && Settled(s) && Allowed(s, action)
    ensures action.Die? && s.dead == 0
  {
    var a := SettledAtRest(s);
    assert s.dead != 0 ==> At(s, s.dead) == Picture(a, s.dead);
    assert action.node != s.dead ==> Sv(s, action.node).mode == Idle;
    StepDepicted(a, s, action);
  }

  lemma IdKept(s: Net, i: nat)
    requires Reachable(s) && On(s.size, i)
    ensures Sv(s, i).id == i
  {
    var a := ReachableDepicted(s);
    assert At(s, i) == Picture(a, i);
  }

  lemma DeathIsSurvivable(s: Net)
    requires Reachable(s) && s.dead != 0
    ensures Survivable(s.size, s.dead)
  {
    var a := ReachableDepicted(s);
  }
}
