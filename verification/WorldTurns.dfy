/** Whatever a node's turn calls for is part of some history; above all, a new index begins with a peer table full of
    anything. */
module WorldTurns {
  import opened Types
  import opened World
  import opened WorldTheorems
  import Ring
  import RingRuns
  import RingTurns

  /** In every history, the next thing to happen may be any step that a node's mode and links call for. */
  lemma EveryTurnHappens(ring: nat, w: World, action: Ring.Action)
    requires ring >= 2 && Attainable(ring, w) && On(ring, action.node)
    ensures RingTurns.CalledFor(w.net, action) <==> Possible(w, Protocol(action))
    ensures Possible(w, Protocol(action)) ==> Attainable(ring, Happen(w, Protocol(action)))
  {
    var a, stored := AttainableSound(ring, w);
    RingTurns.EveryTurnIsOpen(w.net, action);
    if Possible(w, Protocol(action)) {
      AttainableNext(ring, w, Protocol(action));
    }
  }

  /** Node i has taken the lead and found this in its peer table. */
  predicate HasBegunWith(net: Ring.Net, i: nat, memory: seq<nat>) {
    Ring.Sv(net, i).mode == Ring.PresentItself && Ring.Sv(net, i).ports == memory
  }

  lemma LeaderBegins(ring: nat, w: World, i: nat, memory: seq<nat>) returns (w': World)
    requires ring >= 2 && Attainable(ring, w) && On(ring, i) && i == |memory|
    requires Ring.Sv(w.net, i).mode == Ring.BeginOperation && Ring.Sv(w.net, i).netSize == Ring.Sv(w.net, i).id == i
    ensures Attainable(ring, w') && HasBegunWith(w'.net, i, memory)
    ensures w'.net.dead == w.net.dead && w'.files == w.files
  {
    var action := Ring.Begin(i, memory);
    EveryTurnHappens(ring, w, action);
    w' := Happen(w, Protocol(action));
  }

  /** For every content of its freshly allocated peer table there is a history in which node N begins with it. */
  lemma FirstLeaderBegins(ring: nat, memory: seq<nat>) returns (w: World)
    requires ring >= 2 && |memory| == ring
    ensures Attainable(ring, w) && HasBegunWith(w.net, ring, memory) && w.net.dead == 0
  {
    AttainableStart(ring);
    w := LeaderBegins(ring, StartWorld(ring), ring, memory);
  }

  lemma DeathThen(ring: nat, w: World, actions: seq<Ring.Action>) returns (w': World)
    requires ring >= 4 && Attainable(ring, w) && Possible(w, Protocol(Ring.Die(ring)))
    requires Ring.IsRun(Ring.Apply(w.net, Ring.Die(ring)), actions)
    ensures Attainable(ring, w') && w'.net == Ring.After(Ring.Apply(w.net, Ring.Die(ring)), actions)
    ensures w'.files == w.files
  {
    AttainableNext(ring, w, Protocol(Ring.Die(ring)));
    w' := RunThen(ring, Happen(w, Protocol(Ring.Die(ring))), actions);
  }

  lemma RunThen(ring: nat, w: World, actions: seq<Ring.Action>) returns (w': World)
    requires ring >= 2 && Attainable(ring, w) && Ring.IsRun(w.net, actions)
    ensures Attainable(ring, w') && w'.net == Ring.After(w.net, actions) && w'.files == w.files
  {
    var a, stored := AttainableSound(ring, w);
    RunIsHistory(w, actions);
    AttainableThen(ring, w, Steps(actions));
    w' := AfterAll(w, Steps(actions));
  }

  lemma IndexDiesAndSuccessorIsUp(ring: nat, w: World) returns (w': World)
    requires ring >= 4 && Attainable(ring, w) && RingRuns.Settled(w.net) && w.net.dead == 0
    ensures Attainable(ring, w') && RingTurns.AboutToLead(w'.net, ring) && w'.files == w.files
  {
    var a, stored := AttainableSound(ring, w);
    var actions := RingTurns.SuccessorBegins(w.net);
    w' := DeathThen(ring, w, actions);
  }

  /** Whatever has been stored, there is a history that goes on with the death of the index, and in which node N - 1
      then begins with any given content of its freshly allocated peer table. */
  lemma NextLeaderBegins(ring: nat, w: World, memory: seq<nat>) returns (w': World)
    requires ring >= 4 && Attainable(ring, w) && RingRuns.Settled(w.net) && w.net.dead == 0 && |memory| == ring - 1
    ensures Attainable(ring, w') && HasBegunWith(w'.net, ring - 1, memory)
    ensures w'.net.dead == ring && w'.files == w.files
  {
    var w1 := IndexDiesAndSuccessorIsUp(ring, w);
    w' := LeaderBegins(ring, w1, ring - 1, memory);
  }
}
