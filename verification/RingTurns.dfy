/** No turn is left out: in every reachable state, whatever a node's mode and links call for can be done. The conditions
    under which a step is enabled beyond that, tables long enough, a divisor other than zero, neighbours that exist,
    always hold. */
module RingTurns {
  import opened Types
  import opened Ring
  import opened RingPicture
  import opened RingSteps
  import opened RingDeath
  import opened RingRuns

  lemma DeathOpen(a: Progress, s: Net, i: nat)
    requires Depicts(a, s) && On(s.size, i)
    ensures Same(CalledFor(s, Die(i)), Allowed(s, Die(i)))
  {
    if s.dead == 0 {
      assert forall j: nat :: On(s.size, j) ==> j != s.dead;
    }
  }

  lemma ReporterReady(a: Progress, i: nat)
    requires ProgressOk(a) && On(a.size, i) && Picture(a, i).sv.mode == ReportKnowledge
    ensures Working(a) && Current(a).presented && |Current(a).reporters| < Leader(a) - 1
    ensures 1 <= i <= Current(a).gossip && i !in Current(a).reporters
  {
    WorkingMode(a, i);
    TooManyReporters(Current(a), Leader(a));
    if |Current(a).reporters| == Leader(a) - 1 {
      ReportersComplete(Current(a), Leader(a));
    }
    assert 1 in Current(a).begun;
  }

  lemma ReportOpen(a: Progress, s: Net, i: nat)
    requires Depicts(a, s) && On(s.size, i)
    ensures Same(CalledFor(s, Report(i)), Allowed(s, Report(i)))
  {
    assert At(s, i) == Picture(a, i);
    if Sv(s, i).mode == ReportKnowledge {
      ReporterReady(a, i);
      ReportEnabled(a, s, i);
    }
  }

  lemma DetectOpen(a: Progress, s: Net, i: nat)
    requires Depicts(a, s) && On(s.size, i)
    ensures Same(CalledFor(s, Detect(i)), Allowed(s, Detect(i)))
  {
    DepictedSource(a, s, i);
    if CalledFor(s, Detect(i)) {
      DetectOk(a, i);
      DetectEnabled(a, s);
    }
  }

  lemma NoticeOpen(a: Progress, s: Net, i: nat)
    requires Depicts(a, s) && On(s.size, i)
    ensures Same(CalledFor(s, ReadNotice(i)), Allowed(s, ReadNotice(i)))
  {
    DepictedSource(a, s, i);
    if CalledFor(s, ReadNotice(i)) {
      NoticeOk(a, i);
      NoticeReader(a, i);
      assert Incoming(s, i) == [TheNotice(a)];
    }
  }

  lemma AcceptOpen(a: Progress, s: Net, i: nat)
    requires Depicts(a, s) && On(s.size, i)
    ensures Same(CalledFor(s, Accept(i)), Allowed(s, Accept(i)))
  {
    assert At(s, i) == Picture(a, i);
    if CalledFor(s, Accept(i)) {
      AcceptOk(a, i);
      AcceptEnabled(a, s);
    }
  }

  /** What a node's mode and links call for, and no more. A node about to begin may find anything in its freshly
      allocated peer table; a leader presents itself; a node that waits for gossip takes what has arrived; a node that
      has something to report reports it; an idle node says so if it finds its backward connection closed and nothing
      left in it, and handles the packet it finds there; the widow accepts whoever has dialled it; and if nobody has
      died and everybody is idle, any node of a ring of at least three may die, the index if there are four. */
  ghost predicate CalledFor(s: Net, action: Action) {
    var i := action.node;
    var sv := Sv(s, i);
    match action
    case Begin(_, memory) => sv.mode == BeginOperation && |memory| == sv.netSize
    case Present(_) => sv.mode == PresentItself
    case Gossip(_) => sv.mode == WaitGossip && Incoming(s, i) != []
    case Report(_) => sv.mode == ReportKnowledge
    case Die(_) =>
      && s.dead == 0 && s.size >= 3 && (i == s.size ==> s.size >= 4)
      && forall j: nat :: On(s.size, j) ==> Sv(s, j).mode == Idle
    case Detect(_) =>
      sv.mode == Idle && sv.bwdOpen && Sv(s, At(s, i).source).mode == Dead && Incoming(s, i) == []
    case ReadNotice(_) => sv.mode == Idle && sv.bwdOpen && Incoming(s, i) != []
    case Accept(_) => sv.mode == WaitingNewPeer && At(s, i).pending != []
  }

  lemma FormingOpen(s: Net, action: Action)
    requires On(s.size, action.node) && (action.Begin? || action.Present? || action.Gossip?)
    ensures Same(CalledFor(s, action), Allowed(s, action))
  {
  }

  lemma TurnOpen(a: Progress, s: Net, action: Action)
    requires Depicts(a, s) && On(s.size, action.node)
    ensures Same(CalledFor(s, action), Allowed(s, action))
  {
    match action {
      case Begin(_, _) => FormingOpen(s, action);
      case Present(_) => FormingOpen(s, action);
      case Gossip(_) => FormingOpen(s, action);
      case Report(i) => ReportOpen(a, s, i);
      case Die(i) => DeathOpen(a, s, i);
      case Detect(i) => DetectOpen(a, s, i);
      case ReadNotice(i) => NoticeOpen(a, s, i);
      case Accept(i) => AcceptOpen(a, s, i);
    }
  }

  /** In every reachable state exactly the steps that are called for are possible: no interleaving of the nodes' turns
      is missing from the runs, and whatever else a step needs is always there. */
  lemma EveryTurnIsOpen(s: Net, action: Action)
    requires Reachable(s) && On(s.size, action.node)
    ensures CalledFor(s, action) <==> Allowed(s, action)
  {
    var a := ReachableDepicted(s);
    TurnOpen(a, s, action);
  }

  // ---------------------------------------------------------------- a new leader begins

  /** The notice goes all the way around, and nobody begins before it has. */
  lemma {:induction false} NoticeGoesRound(a: Progress, s: Net) returns (actions: seq<Action>, b: Progress)
    requires Depicts(a, s) && a.dead == a.size && a.second == NOTHING && !a.accepted
    ensures IsRun(s, actions) && Depicts(b, After(s, actions))
    ensures b.dead == a.dead && b.size == a.size && b.second == NOTHING && b.notices == a.size - 1
    decreases a.size - a.notices
  {
    if a.notices == a.size - 1 {
      actions, b := [], a;
    } else {
      var action: Action;
      if a.notices == 0 {
        DetectEnabled(a, s);
        action := Detect(Succ(a.size, a.dead));
      } else {
        NoticeEnabled(a, s);
        action := ReadNotice(NodeAtDistance(a.size, a.dead, a.notices));
      }
      StepDepicted(a, s, action);
      var rest, b' := NoticeGoesRound(Next(a, action), Apply(s, action));
      Cons(action, rest);
      actions, b := [action] + rest, b';
    }
  }

  /** After the death of the index the ring gets to a state in which node N - 1 is about to begin. */
  lemma SuccessorBegins(s: Net) returns (actions: seq<Action>)
    requires Reachable(s) && s.dead == 0 && AllIdle(s) && s.size >= 4
    ensures Allowed(s, Die(s.size)) && IsRun(Apply(s, Die(s.size)), actions)
    ensures AboutToLead(After(Apply(s, Die(s.size)), actions), s.size)
  {
    var a := ReachableDepicted(s);
    StepDepicted(a, s, Die(s.size));
    var b;
    actions, b := NoticeGoesRound(Next(a, Die(s.size)), Apply(s, Die(s.size)));
    SuccessorMode(b, After(Apply(s, Die(s.size)), actions));
  }

  /** Node N has died, and node N - 1 is about to find that it is the leader. */
  predicate AboutToLead(s: Net, ring: nat) {
    && s.size == s.dead == ring >= 4
    && var sv := Sv(s, ring - 1); sv.mode == BeginOperation && sv.netSize == sv.id == ring - 1
  }

  lemma SuccessorMode(b: Progress, s: Net)
    requires Depicts(b, s) && b.dead == b.size >= 4 && b.second == NOTHING && b.notices == b.size - 1
    ensures AboutToLead(s, b.size)
  {
    assert At(s, b.size - 1) == Picture(b, b.size - 1);
    ModeOf(b, b.size - 1);
  }
}
