/** Whole runs of the ring: every run stays depicted, and every step adds exactly one to a bounded rank. */
module RingRuns {
  import opened Types
  import opened Ring
  import opened RingPicture
  import opened RingSteps
  import opened RingDeath

  // ---------------------------------------------------------------- every step

  lemma StepDepicted(a: Progress, s: Net, action: Action)
    requires Depicts(a, s) && Allowed(s, action)
    ensures Depicts(Next(a, action), Apply(s, action))
  {
    match action
    case Begin(i, memory) => BeginStep(a, s, i, memory);
    case Present(i) => PresentStep(a, s, i);
    case Gossip(i) => GossipStep(a, s, i);
    case Report(i) => ReportStep(a, s, i);
    case Die(i) => DieStep(a, s, i);
    case Detect(i) => DetectStep(a, s, i);
    case ReadNotice(i) => NoticeStep(a, s, i);
    case Accept(i) => AcceptStep(a, s, i);
  }

  // ---------------------------------------------------------------- rank

  function Bit(b: bool): nat {
    if b then 1 else 0
  }

  function FormationRank(g: Formation): nat {
    |g.begun| + Bit(g.presented) + g.gossip + |g.reporters|
  }

  function Rank(a: Progress): nat {
    FormationRank(a.first) + Bit(a.dead != 0) + a.notices + Bit(a.accepted) + FormationRank(a.second)
  }

  lemma FormationRankBound(g: Formation, leader: nat)
    requires FormationOk(g, leader)
    ensures FormationRank(g) <= 3 * leader - 1
  {
    RingNodesCount(leader);
    SubsetCount(g.begun, RingNodes(leader));
    TooManyReporters(g, leader);
  }

  /** No run is longer than 7N - 3 steps. */
  lemma RankBound(a: Progress)
    requires ProgressOk(a)
    ensures Rank(a) <= 7 * a.size - 3
  {
    FormationRankBound(a.first, a.size);
    if a.dead == a.size {
      FormationRankBound(a.second, a.size - 1);
    }
  }

  lemma RankGrows(a: Progress, s: Net, action: Action)
    requires Depicts(a, s) && Allowed(s, action)
    ensures Rank(Next(a, action)) == Rank(a) + 1
  {
    assert At(s, action.node) == Picture(a, action.node);
    match action
    case Begin(i, memory) => BeginRank(a, i, memory);
    case Present(i) => PresentRank(a, i);
    case Accept(i) => AcceptRank(a, i);
    case Gossip(_) => OneMore(a, action);
    case Report(_) => OneMore(a, action);
    case Die(_) => OneMore(a, action);
    case Detect(_) => OneMore(a, action);
    case ReadNotice(_) => OneMore(a, action);
  }

  lemma BeginRank(a: Progress, i: nat, memory: seq<nat>)
    requires ProgressOk(a) && On(a.size, i) && Picture(a, i).sv.mode == BeginOperation
    requires |memory| == Picture(a, i).sv.netSize
    ensures Rank(Next(a, Begin(i, memory))) == Rank(a) + 1
  {
    BeginOk(a, i, memory);
  }

  lemma PresentRank(a: Progress, i: nat)
    requires ProgressOk(a) && On(a.size, i) && Picture(a, i).sv.mode == PresentItself
    ensures Rank(Next(a, Present(i))) == Rank(a) + 1
  {
    PresentOk(a, i);
  }

  lemma AcceptRank(a: Progress, i: nat)
    requires ProgressOk(a) && On(a.size, i)
    requires Picture(a, i).sv.mode == WaitingNewPeer && Picture(a, i).pending != []
    ensures Rank(Next(a, Accept(i))) == Rank(a) + 1
  {
    AcceptOk(a, i);
  }

  lemma OneMore(a: Progress, action: Action)
    requires a.size >= 1 && (action.Gossip? || action.Report? || action.Die? || action.Detect? || action.ReadNotice?)
    requires action.Die? ==> a.dead == 0 && action.node != 0
    ensures Rank(Next(a, action)) == Rank(a) + 1
  {
  }

  // ---------------------------------------------------------------- every run

  /** The counters after a list of actions. */
  function Track(a: Progress, actions: seq<Action>): Progress
    requires a.size >= 1
    decreases |actions|
  {
    if actions == [] then a else Track(Next(a, actions[0]), actions[1..])
  }

  lemma {:induction false} RunDepicted(a: Progress, s: Net, actions: seq<Action>)
    requires Depicts(a, s) && IsRun(s, actions)
    ensures Depicts(Track(a, actions), After(s, actions))
    ensures Rank(Track(a, actions)) == Rank(a) + |actions|
    ensures After(s, actions).size == s.size
    decreases |actions|
  {
    if actions != [] {
      StepDepicted(a, s, actions[0]);
      RankGrows(a, s, actions[0]);
      RunDepicted(Next(a, actions[0]), Apply(s, actions[0]), actions[1..]);
    }
  }

  /** A state the ring can get into. */
  ghost predicate Reachable(s: Net) {
    s.size >= 2 && exists actions :: IsRun(Initial(s.size), actions) && s == After(Initial(s.size), actions)
  }

  lemma ReachableDepicted(s: Net) returns (a: Progress)
    requires Reachable(s)
    ensures Depicts(a, s)
  {
    var actions :| IsRun(Initial(s.size), actions) && s == After(Initial(s.size), actions);
    InitialDepicted(s.size);
    RunDepicted(Start(s.size), Initial(s.size), actions);
    a := Track(Start(s.size), actions);
  }

  /** Termination: however the steps interleave, a run has at most 7N - 3 of them. */
  lemma RunsAreShort(ring: nat, actions: seq<Action>)
    requires ring >= 2 && IsRun(Initial(ring), actions)
    ensures |actions| <= 7 * ring - 3
  {
    InitialDepicted(ring);
    assert Rank(Start(ring)) == 0;
    RunIsShort(Start(ring), Initial(ring), actions);
  }

  lemma RunIsShort(a: Progress, s: Net, actions: seq<Action>)
    requires Depicts(a, s) && IsRun(s, actions)
    ensures Rank(a) + |actions| <= 7 * s.size - 3
  {
    RunDepicted(a, s, actions);
    RankBound(Track(a, actions));
  }

  // ---------------------------------------------------------------- no run gets stuck

  /** Everybody alive is idle and knows of the death, if there was one. */
  ghost predicate Settled(s: Net) {
    AllIdle(s) && (s.dead != 0 ==> forall i: nat :: On(s.size, i) && i != s.dead ==> Sv(s, i).deathCount == 1)
  }

  /** The node at a given distance from the widow. */
  function NodeAtDistance(ring: nat, dead: nat, d: nat): nat {
    var widow := Succ(ring, dead);
    if widow + d <= ring then widow + d else widow + d - ring
  }

  lemma DetectEnabled(a: Progress, s: Net)
    requires Depicts(a, s) && a.dead != 0 && a.notices == 0
    ensures Enabled(s, Detect(Succ(a.size, a.dead)))
  {
    var i := Succ(a.size, a.dead);
    assert On(s.size, i) && On(s.size, a.dead);
    assert At(s, i) == Picture(a, i) && At(s, a.dead) == Picture(a, a.dead);
    CompleteSeat(a.first, a.size, i);
    CompleteSeat(a.first, a.size, a.dead);
  }

  lemma NoticeEnabled(a: Progress, s: Net)
    requires Depicts(a, s) && a.dead != 0 && 1 <= a.notices < a.size - 1
    ensures Enabled(s, ReadNotice(NodeAtDistance(a.size, a.dead, a.notices)))
  {
    var i := NodeAtDistance(a.size, a.dead, a.notices);
    var from := Pred(a.size, i);
    DistanceBack(a.size, a.dead, i);
    assert On(s.size, i) && On(s.size, from);
    assert At(s, i) == Picture(a, i) && At(s, from) == Picture(a, from);
    CompleteSeat(a.first, a.size, i);
    assert NoticeReady(a, i);
    NoticeReader(a, i);
  }

  lemma AcceptEnabled(a: Progress, s: Net)
    requires Depicts(a, s) && a.dead != 0 && a.notices == a.size - 1 && !a.accepted
    ensures Enabled(s, Accept(Succ(a.size, a.dead)))
  {
    assert At(s, Succ(a.size, a.dead)) == Picture(a, Succ(a.size, a.dead));
    AcceptWidow(a);
  }

  /** The formation under way is not complete; everybody who takes part knows it. */
  ghost predicate Working(a: Progress) {
    ProgressOk(a) && (a.dead == 0 || (a.dead == a.size && a.accepted))
  }

  lemma WorkingAtWork(a: Progress, i: nat)
    requires Working(a) && 1 <= i <= Leader(a)
    ensures AtWork(a, i) && On(a.size, i) && FormationOk(Current(a), Leader(a))
    ensures Picture(a, i).sv.mode == FormationMode(Current(a), Leader(a), i)
  {
    ModeOf(a, i);
  }

  lemma BeginEnabled(a: Progress, s: Net, i: nat, memory: seq<nat>)
    requires Depicts(a, s) && Working(a) && 1 <= i <= Leader(a) && i !in Current(a).begun
    requires |memory| == Sv(s, i).netSize
    ensures Enabled(s, Begin(i, memory))
  {
    WorkingAtWork(a, i);
    assert At(s, i) == Picture(a, i);
  }

  lemma PresentEnabled(a: Progress, s: Net)
    requires Depicts(a, s) && Working(a) && Leader(a) in Current(a).begun && !Current(a).presented
    ensures Enabled(s, Present(Leader(a)))
  {
    WorkingAtWork(a, Leader(a));
    assert At(s, Leader(a)) == Picture(a, Leader(a));
  }

  lemma GossipEnabled(a: Progress, s: Net)
    requires Depicts(a, s) && Working(a) && Current(a).presented && Current(a).gossip < Leader(a) - 1
    requires Current(a).gossip + 1 in Current(a).begun
    ensures Enabled(s, Gossip(Current(a).gossip + 1))
  {
    var i := Current(a).gossip + 1;
    WorkingAtWork(a, i);
    ReadsFrom(a, i);
    GossipSeat(Current(a), Leader(a), i, i);
    assert At(s, i) == Picture(a, i);
    assert At(s, Before(Leader(a), i)) == Picture(a, Before(Leader(a), i));
  }

  lemma ReportEnabled(a: Progress, s: Net, i: nat)
    requires Depicts(a, s) && Working(a) && Current(a).presented && |Current(a).reporters| < Leader(a) - 1
    requires 1 <= i <= Current(a).gossip && i !in Current(a).reporters
    ensures Enabled(s, Report(i))
  {
    var leader := Leader(a);
    WorkingAtWork(a, i);
    WorkingAtWork(a, leader);
    PictureAtWork(a, i);
    PictureAtWork(a, leader);
    assert At(s, i) == Picture(a, i) && At(s, leader) == Picture(a, leader);
  }
}
