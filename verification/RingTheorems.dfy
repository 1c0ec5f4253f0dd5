/** What holds in every reachable state of the ring, and in every state where it comes to rest. */
module RingTheorems {
  import opened Types
  import opened Ring
  import opened RingPicture
  import opened RingSteps
  import opened RingDeath
  import opened RingRuns

  // ---------------------------------------------------------------- progress

  lemma CompleteIsSettled(a: Progress, s: Net)
    requires Depicts(a, s)
    requires a.dead != 0 ==> a.accepted
    requires a.dead == 0 ==> Complete(a.first, a.size)
    requires a.dead == a.size ==> Complete(a.second, a.size - 1)
    ensures Settled(s)
  {
    forall i: nat | On(s.size, i) && i != s.dead
      ensures Sv(s, i).mode == Idle && (s.dead != 0 ==> Sv(s, i).deathCount == 1)
    {
      assert At(s, i) == Picture(a, i);
      ModeOf(a, i);
      if a.dead == 0 {
        CompleteSeat(a.first, a.size, i);
      } else if a.dead == a.size {
        CompleteSeat(a.second, a.size - 1, i);
      }
    }
  }

  lemma FormationGoesOn(a: Progress, s: Net) returns (action: Action)
    requires Depicts(a, s) && Working(a) && !Complete(Current(a), Leader(a))
    ensures Enabled(s, action) && !action.Die?
  {
    var g, leader := Current(a), Leader(a);
    WorkingAtWork(a, leader);
    if i: nat :| 1 <= i <= leader && i !in g.begun {
      var memory := seq(Sv(s, i).netSize, _ => 0);
      BeginEnabled(a, s, i, memory);
      action := Begin(i, memory);
    } else if !g.presented {
      PresentEnabled(a, s);
      action := Present(leader);
    } else if g.gossip < leader - 1 {
      GossipEnabled(a, s);
      action := Gossip(g.gossip + 1);
    } else {
      action := ReportingGoesOn(a, s);
    }
  }

  lemma ReportingGoesOn(a: Progress, s: Net) returns (action: Action)
    requires Depicts(a, s) && Working(a) && Current(a).presented && Current(a).gossip == Leader(a) - 1
    requires FormationOk(Current(a), Leader(a)) && !Complete(Current(a), Leader(a))
    ensures Enabled(s, action) && !action.Die?
  {
    TooManyReporters(Current(a), Leader(a));
    var i := SomeoneMissing(Current(a).reporters, Leader(a) - 1);
    ReportEnabled(a, s, i);
    action := Report(i);
  }

  /** No run gets stuck: in every reachable state that has not come to rest, some step other than a death is
      possible. With RunsAreShort: every run, however scheduled, comes to rest. */
  lemma Progresses(s: Net) returns (action: Action)
    requires Reachable(s) && !Settled(s)
    ensures Allowed(s, action) && !action.Die?
  {
    var a := ReachableDepicted(s);
    if a.dead != 0 && a.notices == 0 {
      DetectEnabled(a, s);
      action := Detect(Succ(a.size, a.dead));
    } else if a.dead != 0 && a.notices < a.size - 1 {
      NoticeEnabled(a, s);
      action := ReadNotice(NodeAtDistance(a.size, a.dead, a.notices));
    } else if a.dead != 0 && !a.accepted {
      AcceptEnabled(a, s);
      action := Accept(Succ(a.size, a.dead));
    } else if 0 < a.dead < a.size || Complete(Current(a), Leader(a)) {
      CompleteIsSettled(a, s);
      assert false;
    } else {
      action := FormationGoesOn(a, s);
    }
  }

  // ---------------------------------------------------------------- safety of every state

  /** The leader of the ring: node N, or node N - 1 once N has died. */
  function LeaderOf(s: Net): nat
    requires s.size >= 1
  {
    if s.dead == s.size then s.size - 1 else s.size
  }

  /** A node that waits for gossip only ever reads the leader's presentation, an idle node only ever reads
      the notice of the death that happened, and nobody ever mistakes one for the other. */
  lemma NobodyMisreads(s: Net, i: nat)
    requires Reachable(s) && On(s.size, i)
    ensures Sv(s, i).mode != Confused
    ensures Sv(s, i).mode == WaitGossip && Incoming(s, i) != [] ==>
              Incoming(s, i) == [IndexPresentation(LeaderOf(s), AddressOf(LeaderOf(s)))]
    ensures Sv(s, i).mode == Idle && Sv(s, i).bwdOpen && Incoming(s, i) != [] ==>
              s.dead != 0 && Incoming(s, i) == [PeerDied(s.dead, AddressOf(Succ(s.size, s.dead)))]
  {
    var a := ReachableDepicted(s);
    DepictedReads(a, s, i);
  }

  lemma DepictedReads(a: Progress, s: Net, i: nat)
    requires Depicts(a, s) && On(s.size, i)
    ensures Sv(s, i).mode != Confused
    ensures Sv(s, i).mode == WaitGossip && Incoming(s, i) != [] ==>
              Incoming(s, i) == [IndexPresentation(LeaderOf(s), AddressOf(LeaderOf(s)))]
    ensures Sv(s, i).mode == Idle && Sv(s, i).bwdOpen && Incoming(s, i) != [] ==>
              s.dead != 0 && Incoming(s, i) == [PeerDied(s.dead, AddressOf(Succ(s.size, s.dead)))]
  {
    DepictedSource(a, s, i);
    NeverConfused(a, i);
    WaiterReads(a, i);
    IdlerReads(a, i);
  }

  lemma NeverConfused(a: Progress, i: nat)
    requires ProgressOk(a) && On(a.size, i)
    ensures Picture(a, i).sv.mode != Confused
  {
    ModeOf(a, i);
  }

  lemma WaiterReads(a: Progress, i: nat)
    requires ProgressOk(a) && On(a.size, i)
    ensures var out := Picture(a, Picture(a, i).source).out;
            Picture(a, i).sv.mode == WaitGossip && out != [] ==>
              out == [IndexPresentation(Leader(a), AddressOf(Leader(a)))]
  {
    if Picture(a, i).sv.mode == WaitGossip && Picture(a, Picture(a, i).source).out != [] {
      GossipOk(a, i);
    }
  }

  lemma IdlerReads(a: Progress, i: nat)
    requires ProgressOk(a) && On(a.size, i) && On(a.size, Picture(a, i).source)
    ensures var out := Picture(a, Picture(a, i).source).out;
            Picture(a, i).sv.mode == Idle && Picture(a, i).sv.bwdOpen && out != [] ==>
              a.dead != 0 && out == [PeerDied(a.dead, AddressOf(Succ(a.size, a.dead)))]
  {
    if Picture(a, i).sv.mode == Idle && Picture(a, i).sv.bwdOpen && Picture(a, Picture(a, i).source).out != [] {
      NoticeOk(a, i);
    }
  }

  predicate Carries(s: Net, i: nat, notice: bool) {
    exists k :: 0 <= k < |At(s, i).out| && At(s, i).out[k].PeerDied? == notice
  }

  /** Failover causality: a presentation is never in flight anywhere while a death notice is. */
  lemma GossipNeverMeetsNotice(s: Net, i: nat, j: nat)
    requires Reachable(s) && On(s.size, i) && On(s.size, j)
    ensures !(Carries(s, i, true) && Carries(s, j, false))
  {
    var a := ReachableDepicted(s);
    assert At(s, i) == Picture(a, i) && At(s, j) == Picture(a, j);
    if a.dead != 0 && a.notices < a.size - 1 {
      NoGossipInFlight(a, j);
    } else {
      NoNoticeInFlight(a, i);
    }
  }

  lemma NoGossipInFlight(a: Progress, j: nat)
    requires ProgressOk(a) && On(a.size, j) && a.dead != 0 && a.notices < a.size - 1
    ensures forall k :: 0 <= k < |Picture(a, j).out| ==> Picture(a, j).out[k].PeerDied?
  {
    NotYetRestarted(a);
    CompleteSeat(a.first, a.size, j);
  }

  lemma NoNoticeInFlight(a: Progress, i: nat)
    requires ProgressOk(a) && On(a.size, i) && (a.dead == 0 || a.notices == a.size - 1)
    ensures forall k :: 0 <= k < |Picture(a, i).out| ==> !Picture(a, i).out[k].PeerDied?
  {
    if a.dead != 0 && i != a.dead && i != Succ(a.size, a.dead) {
      DistanceBack(a.size, a.dead, i);
    }
  }

  predicate Leading(sv: Server) {
    sv.mode == PresentItself || sv.mode == WaitingKnowledge
  }

  /** Unique leader: whenever a node is about to begin, its leadership test succeeds exactly if it is the
      leader, and nobody else ever acts as one; so no two nodes do at the same time. */
  lemma UniqueLeader(s: Net, i: nat)
    requires Reachable(s) && On(s.size, i)
    ensures Sv(s, i).mode == BeginOperation ==> (Sv(s, i).netSize == i <==> i == LeaderOf(s))
    ensures Leading(Sv(s, i)) ==> i == LeaderOf(s)
    ensures i != s.dead && IsIndex(Sv(s, i)) ==> i == LeaderOf(s)
  {
    var a := ReachableDepicted(s);
    assert At(s, i) == Picture(a, i);
    OnlyLeaderLeads(a, i);
  }

  lemma OnlyLeaderLeads(a: Progress, i: nat)
    requires ProgressOk(a) && On(a.size, i)
    ensures var sv := Picture(a, i).sv;
            && (sv.mode == BeginOperation ==> (sv.netSize == i <==> i == Leader(a)))
            && (Leading(sv) ==> i == Leader(a))
            && (i != a.dead && IsIndex(sv) ==> i == Leader(a))
  {
    ModeOf(a, i);
    if Picture(a, i).sv.mode == BeginOperation {
      WorkingMode(a, i);
      LeadershipTest(a, i);
    }
  }
}
