/** The states in which the ring comes to rest: after it has formed, after it has lost a node, and after
    it has lost its index. */
module RingOutcomes {
  import opened Types
  import opened Ring
  import opened RingPicture
  import opened RingSteps
  import opened RingDeath
  import opened RingRuns
  import opened RingTheorems

  /** A state at rest: everything that was under way has been completed. */
  ghost predicate AtRest(a: Progress) {
    && ProgressOk(a)
    && Complete(a.first, a.size)
    && (a.dead != 0 ==> a.accepted)
    && (a.dead == a.size ==> Complete(a.second, a.size - 1))
  }

  lemma SettledAtRest(s: Net) returns (a: Progress)
    requires Reachable(s) && Settled(s)
    ensures Depicts(a, s) && AtRest(a)
  {
    a := ReachableDepicted(s);
    var leader := Leader(a);
    assert At(s, leader) == Picture(a, leader) && On(s.size, leader);
    if a.dead == 0 {
      ModeOf(a, leader);
      ReportersComplete(a.first, a.size);
    } else {
      RepairComplete(s, a);
      if a.dead == a.size {
        ModeOf(a, leader);
        ReportersComplete(a.second, leader);
      }
    }
  }

  lemma RepairComplete(s: Net, a: Progress)
    requires Depicts(a, s) && Settled(s) && a.dead != 0
    ensures a.notices == a.size - 1 && a.accepted
  {
    var widow, orphan := Succ(a.size, a.dead), Pred(a.size, a.dead);
    assert On(s.size, widow) && On(s.size, orphan) && widow != a.dead && orphan != a.dead;
    assert At(s, widow) == Picture(a, widow) && At(s, orphan) == Picture(a, orphan);
    AllKnow(a);
    ModeOf(a, widow);
  }

  lemma AllKnow(a: Progress)
    requires ProgressOk(a) && a.dead != 0 && Picture(a, Pred(a.size, a.dead)).sv.deathCount == 1
    ensures a.notices == a.size - 1
  {
  }

  // ---------------------------------------------------------------- the peer table

  lemma {:induction false} FilledAt(memory: seq<nat>, reporters: seq<nat>, x: nat)
    requires x in reporters && 1 <= x <= |memory|
    ensures Filled(memory, reporters)[x - 1] == AddressOf(x)
  {
    var front, last := reporters[..|reporters| - 1], reporters[|reporters| - 1];
    if x != last {
      FilledAt(memory, front, x);
    }
  }

  /** The leader's table once a formation is complete: the right address for everybody else. */
  ghost predicate FullTable(ports: seq<nat>, leader: nat) {
    |ports| == leader && forall x: nat :: 1 <= x < leader ==> ports[x - 1] == AddressOf(x)
  }

  lemma CompleteTable(g: Formation, leader: nat)
    requires FormationOk(g, leader) && Complete(g, leader)
    ensures FullTable(Filled(g.memory, g.reporters), leader)
  {
    ReportersComplete(g, leader);
    forall x: nat | 1 <= x < leader
      ensures Filled(g.memory, g.reporters)[x - 1] == AddressOf(x)
    {
      FilledAt(g.memory, g.reporters, x);
    }
  }

  // ---------------------------------------------------------------- outcomes

  /** Everybody below the leader has reported to it, exactly once. */
  ghost predicate ReportedOnce(reporters: seq<nat>, leader: nat) {
    Distinct(reporters) && forall i: nat :: i in reporters <==> 1 <= i < leader
  }

  lemma CompleteReporters(g: Formation, leader: nat)
    requires FormationOk(g, leader) && Complete(g, leader)
    ensures ReportedOnce(g.reporters, leader) && |g.reporters| == leader - 1
  {
    ReportersComplete(g, leader);
  }

  /** Gossip and reporting: when the ring has formed, node N is the index, with both counters and its peer
      table right and every other node having reported once; and every other node has taken exactly one
      presentation, which named N. */
  lemma FormedRing(s: Net)
    requires Reachable(s) && Settled(s) && s.dead == 0
    ensures var index := At(s, s.size);
            && index.sv.netSize == s.size && index.sv.deathCount == 0
            && index.sv.knownPeers == s.size - 1 && FullTable(index.sv.ports, s.size)
            && ReportedOnce(index.reporters, s.size) && index.heard == []
    ensures forall i: nat :: 1 <= i < s.size ==>
              At(s, i).heard == [s.size] && Sv(s, i).indexId == s.size && Sv(s, i).indexAddress == AddressOf(s.size)
  {
    var a := SettledAtRest(s);
    assert At(s, s.size) == Picture(a, s.size) && On(s.size, s.size);
    CompleteSeat(a.first, a.size, a.size);
    CompleteTable(a.first, a.size);
    CompleteReporters(a.first, a.size);
    forall i: nat | 1 <= i < s.size
      ensures At(s, i).heard == [s.size] && Sv(s, i).indexId == s.size && Sv(s, i).indexAddress == AddressOf(s.size)
    {
      assert On(s.size, i) && At(s, i) == Picture(a, i);
      CompleteSeat(a.first, a.size, i);
    }
  }

  /** Death propagation: when the ring has come to rest after the death of node D, every survivor but the
      widow has read the notice exactly once and the widow never; everybody counts one death, and the two
      counters add up to N for everybody except the widow, for whom they add up to N - 1. */
  lemma NoticeVisitsEverybodyOnce(s: Net, i: nat)
    requires Reachable(s) && Settled(s) && s.dead != 0 && On(s.size, i) && i != s.dead
    ensures Sv(s, i).deathCount == 1
    ensures At(s, i).notified == if i == Succ(s.size, s.dead) then [] else [s.dead]
    ensures Sv(s, i).netSize + Sv(s, i).deathCount == if i == Succ(s.size, s.dead) then s.size - 1 else s.size
  {
    var a := SettledAtRest(s);
    assert At(s, i) == Picture(a, i);
    EverybodyKnows(a, i);
  }

  lemma EverybodyKnows(a: Progress, i: nat)
    requires AtRest(a) && a.dead != 0 && On(a.size, i) && i != a.dead
    ensures Knows(a, i)
  {
    if i != Succ(a.size, a.dead) {
      DistanceBack(a.size, a.dead, i);
    }
  }

  /** The index of a ring that has lost another node: only the dead node's entry is erased. */
  lemma IndexAfterLoss(s: Net)
    requires Reachable(s) && Settled(s) && 0 < s.dead < s.size
    ensures var index := Sv(s, s.size);
            && index.deathCount == 1 && index.knownPeers == s.size - 1
            && index.netSize == (if s.dead == s.size - 1 then s.size - 2 else s.size - 1)
            && |index.ports| == s.size && index.ports[s.dead - 1] == 0
            && forall x: nat :: 1 <= x < s.size && x != s.dead ==> index.ports[x - 1] == AddressOf(x)
  {
    var a := SettledAtRest(s);
    assert At(s, s.size) == Picture(a, s.size) && On(s.size, s.size);
    EverybodyKnows(a, a.size);
    CompleteSeat(a.first, a.size, a.size);
    CompleteTable(a.first, a.size);
  }

  /** Node i has taken two presentations, first of N and then of the new leader, which it now follows. */
  predicate Follows(s: Net, i: nat)
    requires s.size >= 1
  {
    && At(s, i).heard == [s.size, s.size - 1]
    && Sv(s, i).indexId == s.size - 1 && Sv(s, i).indexAddress == AddressOf(s.size - 1)
  }

  lemma FollowerAfterTakeover(s: Net, a: Progress, i: nat)
    requires Depicts(a, s) && AtRest(a) && a.dead == a.size && 1 <= i < a.size - 1
    ensures Follows(s, i)
  {
    assert On(s.size, i) && At(s, i) == Picture(a, i);
    EverybodyKnows(a, i);
    CompleteSeat(a.first, a.size, i);
    CompleteSeat(a.second, a.size - 1, i);
  }

  lemma LeaderAfterTakeover(a: Progress)
    requires AtRest(a) && a.dead == a.size
    ensures a.size >= 4
    ensures var index := Picture(a, a.size - 1);
            && index.sv.deathCount == 1 && index.sv.netSize == a.size - 1 && index.sv.knownPeers == a.size - 2
            && FullTable(index.sv.ports, a.size - 1)
            && ReportedOnce(index.reporters, a.size - 1) && |index.reporters| == a.size - 2
  {
    var leader: nat := a.size - 1;
    EverybodyKnows(a, leader);
    CompleteSeat(a.second, leader, leader);
    CompleteTable(a.second, leader);
    CompleteReporters(a.second, leader);
  }

  /** The ring after the loss of its index: node N - 1 leads, with a full table of its own and one report
      from each of 1..N - 2; and each of these has taken exactly one more presentation, naming N - 1. */
  lemma IndexAfterTakeover(s: Net)
    requires Reachable(s) && Settled(s) && s.dead == s.size
    ensures s.size >= 4
    ensures var index := At(s, s.size - 1);
            && index.sv.deathCount == 1 && index.sv.netSize == s.size - 1 && index.sv.knownPeers == s.size - 2
            && FullTable(index.sv.ports, s.size - 1)
            && ReportedOnce(index.reporters, s.size - 1) && |index.reporters| == s.size - 2
    ensures forall i: nat :: 1 <= i < s.size - 1 ==> Follows(s, i)
  {
    var a := SettledAtRest(s);
    var leader: nat := s.size - 1;
    assert At(s, leader) == Picture(a, leader) && On(s.size, leader);
    LeaderAfterTakeover(a);
    forall i: nat | 1 <= i < leader
      ensures Follows(s, i)
    {
      FollowerAfterTakeover(s, a, i);
    }
  }

  /** Whenever the ring is at rest, every live node but the leader dials the leader when it needs the index. */
  lemma EverybodyDialsLeader(s: Net, i: nat)
    requires Reachable(s) && Settled(s) && On(s.size, i) && i != s.dead && i != LeaderOf(s)
    ensures IndexOf(s, i) == LeaderOf(s)
  {
    var a := SettledAtRest(s);
    assert At(s, i) == Picture(a, i);
    CompleteSeat(a.first, a.size, i);
    if a.dead == a.size {
      FollowerAfterTakeover(s, a, i);
    } else if a.dead != 0 {
      EverybodyKnows(a, i);
    }
  }

  // ---------------------------------------------------------------- the repaired ring

  /** Where node i's forward connection leads. */
  function Forward(s: Net, i: nat): nat {
    NodeAt(Sv(s, i).fwdAddress)
  }

  /** The node reached from i over k forward links. */
  function Follow(s: Net, i: nat, k: nat): nat {
    if k == 0 then i else Forward(s, Follow(s, i, k - 1))
  }

  lemma ForwardLink(s: Net, a: Progress, i: nat)
    requires Depicts(a, s) && AtRest(a) && a.dead != 0 && On(s.size, i) && i != a.dead
    ensures Forward(s, i) == if i == Pred(a.size, a.dead) then Succ(a.size, a.dead) else Succ(a.size, i)
  {
    assert At(s, i) == Picture(a, i);
    EverybodyKnows(a, i);
  }

  lemma {:induction false} FollowFromWidow(s: Net, a: Progress, k: nat)
    requires Depicts(a, s) && AtRest(a) && a.dead != 0 && k < a.size - 1
    ensures Follow(s, Succ(a.size, a.dead), k) == NodeAtDistance(a.size, a.dead, k)
  {
    if k > 0 {
      FollowFromWidow(s, a, k - 1);
      ForwardLink(s, a, NodeAtDistance(a.size, a.dead, k - 1));
    }
  }

  lemma CycleCloses(s: Net, a: Progress)
    requires Depicts(a, s) && AtRest(a) && a.dead != 0
    ensures Follow(s, Succ(s.size, s.dead), s.size - 1) == Succ(s.size, s.dead)
  {
    var k: nat := s.size - 2;
    FollowFromWidow(s, a, k);
    ForwardLink(s, a, NodeAtDistance(s.size, s.dead, k));
    assert Follow(s, Succ(s.size, s.dead), k + 1) == Forward(s, Follow(s, Succ(s.size, s.dead), k));
  }

  /** Node i is reached from the widow over fewer forward links than there are survivors. */
  ghost predicate OnCycle(s: Net, i: nat) {
    exists k: nat :: k < s.size - 1 && Follow(s, Succ(s.size, s.dead), k) == i
  }

  lemma CycleVisits(s: Net, a: Progress, i: nat)
    requires Depicts(a, s) && AtRest(a) && a.dead != 0 && On(s.size, i) && i != s.dead
    ensures OnCycle(s, i)
  {
    EverybodyKnows(a, i);
    var k: nat := Distance(s.size, s.dead, i);
    FollowFromWidow(s, a, k);
  }

  /** Ring repair: from the widow, forward links visit every survivor and return to the widow after exactly
      as many links as there are survivors; so they form one cycle over the live nodes. */
  lemma LinksFormOneCycle(s: Net)
    requires Reachable(s) && Settled(s) && s.dead != 0
    ensures Follow(s, Succ(s.size, s.dead), s.size - 1) == Succ(s.size, s.dead)
    ensures forall i: nat :: On(s.size, i) && i != s.dead ==> OnCycle(s, i)
  {
    var a := SettledAtRest(s);
    CycleCloses(s, a);
    forall i: nat | On(s.size, i) && i != s.dead
      ensures OnCycle(s, i)
    {
      CycleVisits(s, a, i);
    }
  }

  lemma RepairedId(ring: nat, dead: nat)
    requires ring >= 3 && 1 <= dead <= ring
    ensures RingMod(Pred(ring, dead) + 1, ring - 1) == Succ(ring, dead) <==> dead == ring || (dead == 1 && ring >= 4)
  {
    var a, m := Pred(ring, dead) + 1, ring - 1;
    assert RingMod(a, m) == if a < m then a else RingMod(a - m, m);
  }

  /** The link leads to the widow, but the neighbour id recorded beside it is right only if the dead node was
      the last one or, in a ring of at least four, the first one. */
  lemma RepairedIdIsRightIff(s: Net)
    requires Reachable(s) && Settled(s) && s.dead != 0
    ensures Sv(s, Pred(s.size, s.dead)).fwdId == Succ(s.size, s.dead) <==>
            s.dead == s.size || (s.dead == 1 && s.size >= 4)
  {
    var a := SettledAtRest(s);
    assert On(s.size, Pred(s.size, s.dead));
    RepairedPicture(a);
    RepairedId(s.size, s.dead);
  }

  lemma RepairedPicture(a: Progress)
    requires AtRest(a) && a.dead != 0
    ensures var orphan := Pred(a.size, a.dead);
            Picture(a, orphan).sv.fwdId == RingMod(orphan + 1, a.size - 1)
  {
    EverybodyKnows(a, Pred(a.size, a.dead));
  }

  // ---------------------------------------------------------------- why four

  /** Every action of the list is enabled in turn, survivable or not. */
  ghost predicate CanHappen(s: Net, actions: seq<Action>)
    decreases |actions|
  {
    actions != [] ==> Enabled(s, actions[0]) && CanHappen(Apply(s, actions[0]), actions[1..])
  }

  function Outcome(s: Net, actions: seq<Action>): Net
    requires CanHappen(s, actions)
    decreases |actions|
  {
    if actions == [] then s else Outcome(Apply(s, actions[0]), actions[1..])
  }

  /** The three nodes of a formed ring of three. */
  lemma FormedThree(s: Net)
    requires Reachable(s) && Settled(s) && s.size == 3 && s.dead == 0
    ensures ThreeAtRest(s)
  {
    var a := SettledAtRest(s);
    forall i: nat | 1 <= i <= 3
      ensures RestsOfThree(s, i)
    {
      assert On(s.size, i) && At(s, i) == Picture(a, i);
      CompleteSeat(a.first, 3, i);
    }
  }

  /** Node 2 has re-linked and restarted, node 1 is about to accept it. */
  predicate WidowOfThree(s: Net) {
    && s.size == 3 && 1 in s.nodes && 2 in s.nodes
    && Sv(s, 1).id == 1 && Sv(s, 1).netSize == 1 && Sv(s, 1).mode == WaitingNewPeer && At(s, 1).pending == [2]
    && Sv(s, 2).id == 2 && Sv(s, 2).netSize == 2 && Sv(s, 2).mode == BeginOperation
  }

  /** Some list of enabled actions leads from one state to the other. */
  ghost predicate LeadsTo(s: Net, s': Net) {
    exists actions :: CanHappen(s, actions) && Outcome(s, actions) == s'
  }

  lemma StepLeads(s: Net, action: Action)
    requires Enabled(s, action)
    ensures LeadsTo(s, Apply(s, action))
  {
    var s' := Apply(s, action);
    var actions := [action];
    assert actions[1..] == [] && CanHappen(s', []) && Outcome(s', []) == s';
    assert CanHappen(s, actions) && Outcome(s, actions) == s';
  }

  lemma LeadsOn(s: Net, s': Net, s'': Net)
    requires LeadsTo(s, s') && LeadsTo(s', s'')
    ensures LeadsTo(s, s'')
  {
    var before :| CanHappen(s, before) && Outcome(s, before) == s';
    var after :| CanHappen(s', after) && Outcome(s', after) == s'';
    Concatenated(s, before, after);
  }

  lemma {:induction false} Concatenated(s: Net, before: seq<Action>, after: seq<Action>)
    requires CanHappen(s, before) && CanHappen(Outcome(s, before), after)
    ensures CanHappen(s, before + after)
    ensures Same(Outcome(s, before + after), Outcome(Outcome(s, before), after))
    decreases |before|
  {
    if before == [] {
      assert before + after == after;
    } else {
      Concatenated(Apply(s, before[0]), before[1..], after);
      HeadTail(before, after);
    }
  }

  lemma IndexOfThreeDies(s: Net) returns (s': Net)
    requires Reachable(s) && Settled(s) && s.size == 3 && s.dead == 0
    ensures LeadsTo(s, s') && WidowOfThree(s')
  {
    FormedThree(s);
    var s1 := DetectOfThree(s);
    s' := NoticeOfThree(s1);
    LeadsOn(s, s1, s');
  }

  /** The three nodes of a ring of three at rest. */
  ghost predicate ThreeAtRest(s: Net) {
    s.size == 3 && s.dead == 0 && forall i: nat :: 1 <= i <= 3 ==> RestsOfThree(s, i)
  }

  ghost predicate RestsOfThree(s: Net, i: nat) {
    && i in s.nodes && Sv(s, i).mode == Idle && Sv(s, i).bwdOpen && Sv(s, i).netSize == 3
    && Sv(s, i).indexId == 3 && At(s, i).out == [] && At(s, i).pending == []
    && At(s, i).source == Sv(s, i).bwdId == Pred(3, i) && Sv(s, i).fwdId == Succ(3, i) && Sv(s, i).id == i
  }

  /** Node 3 is dead, node 1 knows it and has sent the notice, node 2 has not read it. */
  ghost predicate NoticeSentOfThree(s: Net) {
    && s.size == 3 && RestsOfThree(s, 2) && 1 in s.nodes
    && Sv(s, 1).id == 1 && Sv(s, 1).netSize == 1 && Sv(s, 1).mode == WaitingNewPeer
    && At(s, 1).pending == [] && At(s, 1).out == [PeerDied(3, AddressOf(1))]
  }

  lemma DetectOfThree(s: Net) returns (s': Net)
    requires ThreeAtRest(s)
    ensures LeadsTo(s, s') && NoticeSentOfThree(s')
  {
    assert RestsOfThree(s, 1) && RestsOfThree(s, 2) && RestsOfThree(s, 3);
    var s1 := Apply(s, Die(3));
    assert Enabled(s1, Detect(1));
    s' := Apply(s1, Detect(1));
    StepLeads(s, Die(3));
    StepLeads(s1, Detect(1));
    LeadsOn(s, s1, s');
  }

  lemma NoticeOfThree(s: Net) returns (s': Net)
    requires NoticeSentOfThree(s)
    ensures LeadsTo(s, s') && WidowOfThree(s')
  {
    assert Enabled(s, ReadNotice(2));
    s' := Apply(s, ReadNotice(2));
    StepLeads(s, ReadNotice(2));
  }

  lemma BothTakeTheLead(s: Net) returns (s': Net)
    requires WidowOfThree(s)
    ensures LeadsTo(s, s') && Leading(Sv(s', 1)) && Leading(Sv(s', 2))
  {
    var s1 := Apply(s, Accept(1));
    var s2 := Apply(s1, Begin(1, [0]));
    s' := Apply(s2, Begin(2, [0, 0]));
    StepLeads(s, Accept(1));
    StepLeads(s1, Begin(1, [0]));
    StepLeads(s2, Begin(2, [0, 0]));
    LeadsOn(s, s1, s2);
    LeadsOn(s, s2, s');
  }

  /** Three nodes are too few: when the index of a formed ring of three dies, the widow counts itself down to
      net_size 1 and takes itself for the leader of one, while node 2 rightly takes the lead of two. */
  lemma TwoLeadersOfThree(s: Net) returns (s': Net)
    requires Reachable(s) && Settled(s) && s.size == 3 && s.dead == 0
    ensures LeadsTo(s, s') && Leading(Sv(s', 1)) && Leading(Sv(s', 2))
  {
    var s1 := IndexOfThreeDies(s);
    s' := BothTakeTheLead(s1);
    LeadsOn(s, s1, s');
  }
}
