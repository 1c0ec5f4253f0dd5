/** Every step of the ring leads from one depicted state to another. */
module RingSteps {
  import opened Types
  import opened Ring
  import opened RingPicture

  // ---------------------------------------------------------------- formations

  /** Once leader - 1 nodes have reported, every node below the leader has. */
  lemma ReportersComplete(g: Formation, leader: nat)
    requires FormationOk(g, leader) && |g.reporters| == leader - 1
    ensures g.gossip == leader - 1
    ensures forall i: nat :: 1 <= i < leader ==> i in g.reporters
  {
    var shifted := seq(|g.reporters|, k requires 0 <= k < |g.reporters| => g.reporters[k] - 1);
    PigeonHole(shifted, g.gossip);
    forall i: nat | 1 <= i < leader
      ensures i in g.reporters
    {
      assert i - 1 in shifted;
    }
  }

  /** In a complete formation everybody is idle, knows the leader and has nothing in flight. */
  lemma CompleteSeat(g: Formation, leader: nat, i: nat)
    requires FormationOk(g, leader) && Complete(g, leader) && 1 <= i <= leader
    ensures SeatOf(g, leader, i).mode == Idle && SeatOf(g, leader, i).out == []
    ensures SeatOf(g, leader, i).informed == (i < leader)
    ensures SeatOf(g, leader, i).proclaimed == SeatOf(g, leader, i).leads == (i == leader)
  {
    ReportersComplete(g, leader);
  }

  lemma ModeOf(a: Progress, i: nat)
    requires ProgressOk(a) && On(a.size, i)
    ensures Picture(a, i).sv.mode ==
            if i == a.dead then Dead
            else if a.dead == 0 then FormationMode(a.first, a.size, i)
            else if !Knows(a, i) then Idle
            else if i == Succ(a.size, a.dead) && !a.accepted then WaitingNewPeer
            else if a.dead == a.size then FormationMode(a.second, a.size - 1, i)
            else Idle
  {
    if a.dead != 0 {
      CompleteSeat(a.first, a.size, i);
    }
  }

  /** Node i is at work on the formation under way. */
  predicate AtWork(a: Progress, i: nat) {
    i != a.dead && (a.dead == 0 || Restarted(a, i))
  }

  /** Only a formation under way makes a node anything but idle, dead or waiting for a neighbour. */
  lemma WorkingMode(a: Progress, i: nat)
    requires ProgressOk(a) && On(a.size, i)
    requires Picture(a, i).sv.mode !in {Idle, Dead, WaitingNewPeer}
    ensures AtWork(a, i) && 1 <= i <= Leader(a)
    ensures Picture(a, i).sv.mode == FormationMode(Current(a), Leader(a), i)
    ensures FormationOk(Current(a), Leader(a))
  {
    ModeOf(a, i);
  }

  /** The record of a working node, by its seat in the formation under way. */
  function Drawn(a: Progress, seat: Seat, i: nat): Node
    requires a.size >= 2
  {
    if a.dead == 0 then Forming(a.size, seat, i) else Bereaved(a, Base(a, i), seat, i)
  }

  lemma PictureAtWork(a: Progress, i: nat)
    requires ProgressOk(a) && AtWork(a, i)
    ensures Picture(a, i) == Drawn(a, SeatOf(Current(a), Leader(a), i), i)
  {
  }

  lemma PictureBySeat(a: Progress, g: Formation, i: nat)
    requires ProgressOk(a) && AtWork(a, i)
    ensures Picture(WithCurrent(a, g), i) == Drawn(a, SeatOf(g, Leader(a), i), i)
  {
  }

  lemma SameBereaved(a: Progress, a': Progress, base: Node, seat: Seat, i: nat)
    requires a.size >= 2 && a' == a.(second := a'.second)
    ensures Bereaved(a', base, seat, i) == Bereaved(a, base, seat, i) && Knows(a', i) == Knows(a, i)
  {
  }

  lemma PictureSameSeat(a: Progress, g: Formation, i: nat)
    requires ProgressOk(a) && (a.dead == 0 || a.dead == a.size)
    requires SeatOf(g, Leader(a), i) == SeatOf(Current(a), Leader(a), i)
    ensures Picture(WithCurrent(a, g), i) == Picture(a, i)
  {
    var a' := WithCurrent(a, g);
    assert Base(a', i) == Base(a, i);
    if a.dead == a.size {
      SameBereaved(a, a', Base(a, i), SecondSeat(a, i), i);
    }
  }

  // ---------------------------------------------------------------- BeginOperation

  lemma BeginSeat(g: Formation, leader: nat, i: nat, memory: seq<nat>, j: nat)
    requires FormationOk(g, leader) && i !in g.begun && 1 <= i <= leader
    requires i == leader ==> |memory| == leader
    ensures FormationOk(Beginning(g, leader, i, memory), leader)
    ensures SeatOf(Beginning(g, leader, i, memory), leader, j) ==
            if j != i then SeatOf(g, leader, j)
            else if i == leader then SeatOf(g, leader, i).(mode := PresentItself, leads := true, table := memory)
            else SeatOf(g, leader, i).(mode := WaitGossip)
  {
  }

  /** The leadership test: at the node that begins, net_size equals the node id exactly for the leader,
      even though the widow's net_size is one lower than everybody else's. */
  lemma LeadershipTest(a: Progress, i: nat)
    requires ProgressOk(a) && On(a.size, i) && AtWork(a, i)
    ensures Picture(a, i).sv.netSize == i <==> i == Leader(a)
  {
  }

  lemma BeginOk(a: Progress, i: nat, memory: seq<nat>)
    requires ProgressOk(a) && On(a.size, i) && Picture(a, i).sv.mode == BeginOperation
    requires |memory| == Picture(a, i).sv.netSize
    ensures ProgressOk(Next(a, Begin(i, memory)))
    ensures AtWork(a, i) && FormationOk(Current(a), Leader(a)) && i !in Current(a).begun && 1 <= i <= Leader(a)
    ensures i == Leader(a) ==> |memory| == Leader(a)
  {
    WorkingMode(a, i);
    LeadershipTest(a, i);
    BeginSeat(Current(a), Leader(a), i, memory, i);
  }

  lemma BeginPicture(a: Progress, i: nat, memory: seq<nat>, j: nat)
    requires ProgressOk(a) && On(a.size, i) && Picture(a, i).sv.mode == BeginOperation
    requires |memory| == Picture(a, i).sv.netSize && On(a.size, j)
    ensures var n := Picture(a, j);
            Picture(Next(a, Begin(i, memory)), j) == if j == i then n.(sv := OnBegin(n.sv, memory)) else n
  {
    var g, leader := Current(a), Leader(a);
    BeginOk(a, i, memory);
    BeginSeat(g, leader, i, memory, j);
    if j == i {
      LeadershipTest(a, i);
      PictureAtWork(a, i);
      PictureBySeat(a, Beginning(g, leader, i, memory), i);
    } else {
      PictureSameSeat(a, Beginning(g, leader, i, memory), j);
    }
  }

  lemma BeginStep(a: Progress, s: Net, i: nat, memory: seq<nat>)
    requires Depicts(a, s) && Enabled(s, Begin(i, memory))
    ensures Depicts(Next(a, Begin(i, memory)), Apply(s, Begin(i, memory)))
  {
    assert At(s, i) == Picture(a, i);
    BeginOk(a, i, memory);
    forall j: nat | On(s.size, j)
      ensures At(s, j) == Picture(a, j)
      ensures var n := Picture(a, j);
              Picture(Next(a, Begin(i, memory)), j) == if j == i then n.(sv := OnBegin(n.sv, memory)) else n
    {
      BeginPicture(a, i, memory, j);
    }
  }

  // ---------------------------------------------------------------- PresentItself

  lemma PresentSeat(g: Formation, leader: nat, j: nat)
    requires FormationOk(g, leader) && leader in g.begun && !g.presented
    ensures FormationOk(g.(presented := true), leader)
    ensures SeatOf(g, leader, leader).out == [] && SeatOf(g, leader, leader).reporters == []
    ensures SeatOf(g.(presented := true), leader, j) ==
            if j != leader then SeatOf(g, leader, j)
            else SeatOf(g, leader, j).(mode := WaitingKnowledge, proclaimed := true,
                 out := [IndexPresentation(leader, AddressOf(leader))])
  {
  }

  lemma PresentOk(a: Progress, i: nat)
    requires ProgressOk(a) && On(a.size, i) && Picture(a, i).sv.mode == PresentItself
    ensures ProgressOk(Next(a, Present(i)))
    ensures AtWork(a, i) && FormationOk(Current(a), Leader(a))
    ensures i == Leader(a) && i in Current(a).begun && !Current(a).presented
  {
    WorkingMode(a, i);
    PresentSeat(Current(a), Leader(a), i);
  }

  lemma PresentPicture(a: Progress, i: nat, j: nat)
    requires ProgressOk(a) && On(a.size, i) && Picture(a, i).sv.mode == PresentItself && On(a.size, j)
    ensures var n := Picture(a, j);
            Picture(Next(a, Present(i)), j) ==
            if j == i then Sending(n, OnPresent(n.sv), [Presentation(n.sv)]) else n
  {
    var g, leader := Current(a), Leader(a);
    PresentOk(a, i);
    PresentSeat(g, leader, j);
    if j == i {
      PictureAtWork(a, i);
      PictureBySeat(a, g.(presented := true), i);
    } else {
      PictureSameSeat(a, g.(presented := true), j);
    }
  }

  lemma PresentStep(a: Progress, s: Net, i: nat)
    requires Depicts(a, s) && Enabled(s, Present(i))
    ensures Depicts(Next(a, Present(i)), Apply(s, Present(i)))
  {
    assert At(s, i) == Picture(a, i);
    PresentOk(a, i);
    forall j: nat | On(s.size, j)
      ensures At(s, j) == Picture(a, j)
      ensures var n := Picture(a, j);
              Picture(Next(a, Present(i)), j) ==
              if j == i then Sending(n, OnPresent(n.sv), [Presentation(n.sv)]) else n
    {
      PresentPicture(a, i, j);
    }
  }

  // ---------------------------------------------------------------- WaitGossip

  /** The node that node i hears the presentation from. */
  function Before(leader: nat, i: nat): nat {
    if i <= 1 then leader else i - 1
  }

  lemma GossipSeat(g: Formation, leader: nat, i: nat, j: nat)
    requires FormationOk(g, leader) && i in g.begun && g.presented && i == g.gossip + 1 < leader
    ensures FormationOk(g.(gossip := i), leader)
    ensures SeatOf(g, leader, i).out == []
    ensures SeatOf(g, leader, Before(leader, i)).out == [IndexPresentation(leader, AddressOf(leader))]
    ensures SeatOf(g.(gossip := i), leader, j) ==
            if j == i then SeatOf(g, leader, i).(mode := ReportKnowledge, informed := true,
                           out := if i == leader - 1 then [] else [IndexPresentation(leader, AddressOf(leader))])
            else if j == Before(leader, i) then SeatOf(g, leader, j).(out := [])
            else SeatOf(g, leader, j)
  {
  }

  /** A node that waits for gossip and hears something hears the presentation, and is next to hear it. */
  lemma HearsGossip(g: Formation, leader: nat, i: nat)
    requires FormationOk(g, leader) && 1 <= i <= leader && FormationMode(g, leader, i) == WaitGossip
    requires FormationOut(g, leader, Before(leader, i)) != []
    ensures i in g.begun && g.presented && i == g.gossip + 1 < leader
  {
  }

  /** Who a working node reads from, and that what it reads is never a death notice. */
  lemma ReadsFrom(a: Progress, i: nat)
    requires ProgressOk(a) && On(a.size, i) && AtWork(a, i) && i <= Leader(a)
    ensures var from := Before(Leader(a), i);
            && Picture(a, i).source == from && On(a.size, from)
            && Picture(a, from).out == FormationOut(Current(a), Leader(a), from)
  {
  }

  lemma BegunAtWork(a: Progress, i: nat)
    requires ProgressOk(a) && i in Current(a).begun
    ensures AtWork(a, i) && On(a.size, i) && i <= Leader(a)
  {
  }

  /** Node i is the next to take the presentation, and it is there for it to read. */
  ghost predicate GossipReady(a: Progress, i: nat) {
    && ProgressOk(a) && On(a.size, i) && AtWork(a, i)
    && var g, leader := Current(a), Leader(a);
       && FormationOk(g, leader) && i in g.begun && g.presented && i == g.gossip + 1 < leader
       && Picture(a, i).source == Before(leader, i) && On(a.size, Before(leader, i))
       && Picture(a, Before(leader, i)).out == [IndexPresentation(leader, AddressOf(leader))]
  }

  lemma GossipOk(a: Progress, i: nat)
    requires ProgressOk(a) && On(a.size, i) && Picture(a, i).sv.mode == WaitGossip
    requires Picture(a, Picture(a, i).source).out != []
    ensures GossipReady(a, i) && ProgressOk(Next(a, Gossip(i)))
  {
    WorkingMode(a, i);
    ReadsFrom(a, i);
    HearsGossip(Current(a), Leader(a), i);
    NextGossipOk(a, i);
  }

  lemma NextGossipOk(a: Progress, i: nat)
    requires GossipReady(a, i)
    ensures ProgressOk(Next(a, Gossip(i)))
  {
    GossipSeat(Current(a), Leader(a), i, i);
  }

  /** What node i becomes on taking the presentation. */
  lemma GossipReader(a: Progress, i: nat)
    requires GossipReady(a, i)
    ensures var n, p := Picture(a, i), IndexPresentation(Leader(a), AddressOf(Leader(a)));
            Picture(Next(a, Gossip(i)), i) ==
            Sending(n, OnGossip(n.sv, p), GossipForward(n.sv, p)).(heard := n.heard + [Leader(a)])
  {
    var g, leader := Current(a), Leader(a);
    GossipSeat(g, leader, i, i);
    PictureAtWork(a, i);
    PictureBySeat(a, g.(gossip := i), i);
  }

  /** The node the presentation was read from has nothing in flight any more. */
  lemma GossipSender(a: Progress, i: nat)
    requires GossipReady(a, i)
    ensures var from := Before(Leader(a), i);
            Picture(Next(a, Gossip(i)), from) == Picture(a, from).(out := [])
  {
    var g, leader := Current(a), Leader(a);
    var from := Before(leader, i);
    GossipSeat(g, leader, i, from);
    BegunAtWork(a, from);
    PictureAtWork(a, from);
    PictureBySeat(a, g.(gossip := i), from);
    DrawnOut(a, SeatOf(g, leader, from), from, []);
  }

  lemma GossipOthers(a: Progress, i: nat, j: nat)
    requires GossipReady(a, i) && On(a.size, j) && j != i && j != Before(Leader(a), i)
    ensures Picture(Next(a, Gossip(i)), j) == Picture(a, j)
  {
    GossipSeat(Current(a), Leader(a), i, j);
    PictureSameSeat(a, Current(a).(gossip := i), j);
  }

  lemma DrawnOut(a: Progress, seat: Seat, i: nat, out: seq<Packet>)
    requires a.size >= 2 && seat.out != [] && seat.out[0].IndexPresentation? && Drawn(a, seat, i).out == seat.out
    ensures Drawn(a, seat.(out := out), i) == Drawn(a, seat, i).(out := out)
  {
  }

  lemma GossipApplied(s: Net, i: nat, p: Packet, j: nat)
    requires p.IndexPresentation? && At(s, i).source != i && Incoming(s, i) == [p] && i in s.nodes
    ensures var n := At(s, j);
            At(ApplyGossip(s, i, p), j) ==
            if j == i then Sending(n, OnGossip(n.sv, p), GossipForward(n.sv, p)).(heard := n.heard + [p.index])
            else if j == At(s, i).source then n.(out := [])
            else n
  {
  }

  lemma GossipStep(a: Progress, s: Net, i: nat)
    requires Depicts(a, s) && Enabled(s, Gossip(i))
    ensures Depicts(Next(a, Gossip(i)), Apply(s, Gossip(i)))
    ensures Incoming(s, i)[0] == IndexPresentation(Leader(a), AddressOf(Leader(a)))
  {
    var p := IndexPresentation(Leader(a), AddressOf(Leader(a)));
    DepictedSource(a, s, i);
    GossipOk(a, i);
    assert Incoming(s, i) == [p];
    assert Apply(s, Gossip(i)) == ApplyGossip(s, i, p);
    forall j: nat | On(s.size, j)
      ensures j in ApplyGossip(s, i, p).nodes && At(ApplyGossip(s, i, p), j) == Picture(Next(a, Gossip(i)), j)
    {
      assert At(s, j) == Picture(a, j);
      GossipApplied(s, i, p, j);
      if j == i {
        GossipReader(a, i);
      } else if j == Before(Leader(a), i) {
        GossipSender(a, i);
      } else {
        GossipOthers(a, i, j);
      }
    }
  }

  /** Sources are nodes of the ring. */
  lemma DepictedSource(a: Progress, s: Net, i: nat)
    requires Depicts(a, s) && On(s.size, i)
    ensures On(s.size, At(s, i).source)
    ensures At(s, i) == Picture(a, i)
    ensures At(s, At(s, i).source) == Picture(a, Picture(a, i).source)
  {
    assert At(s, i) == Picture(a, i);
  }

  // ---------------------------------------------------------------- ReportKnowledge

  lemma ReportSeat(g: Formation, leader: nat, i: nat, j: nat)
    requires FormationOk(g, leader) && g.presented && 1 <= i <= g.gossip && i !in g.reporters
    requires |g.reporters| < leader - 1
    ensures FormationOk(g.(reporters := g.reporters + [i]), leader)
    ensures SeatOf(g.(reporters := g.reporters + [i]), leader, j) ==
            if j == i then SeatOf(g, leader, i).(mode := Idle)
            else if j == leader then
              SeatOf(g, leader, j).(mode := if |g.reporters| + 1 == leader - 1 then Idle else WaitingKnowledge,
              table := SetPort(SeatOf(g, leader, j).table, i, AddressOf(i)), reporters := g.reporters + [i])
            else SeatOf(g, leader, j)
  {
    assert (g.reporters + [i])[..|g.reporters + [i]| - 1] == g.reporters;
  }

  ghost predicate ReportReady(a: Progress, i: nat) {
    && ProgressOk(a) && On(a.size, i) && AtWork(a, i)
    && var g, leader := Current(a), Leader(a);
       && FormationOk(g, leader) && g.presented && 1 <= i <= g.gossip && i in g.begun && i !in g.reporters
       && |g.reporters| < leader - 1
  }

  lemma ReportOk(a: Progress, i: nat)
    requires ProgressOk(a) && On(a.size, i) && Picture(a, i).sv.mode == ReportKnowledge
    ensures NodeAt(Picture(a, i).sv.indexAddress) == Leader(a)
    ensures ReportReady(a, i) && ProgressOk(Next(a, Report(i)))
  {
    var g, leader := Current(a), Leader(a);
    WorkingMode(a, i);
    PictureAtWork(a, i);
    if |g.reporters| == leader - 1 {
      ReportersComplete(g, leader);
    } else {
      TooManyReporters(g, leader);
      ReportSeat(g, leader, i, i);
    }
  }

  lemma TooManyReporters(g: Formation, leader: nat)
    requires FormationOk(g, leader)
    ensures |g.reporters| <= leader - 1
  {
    var shifted := seq(|g.reporters|, k requires 0 <= k < |g.reporters| => g.reporters[k] - 1);
    PigeonHole(shifted, g.gossip);
  }

  lemma ReportReporter(a: Progress, i: nat)
    requires ReportReady(a, i)
    ensures Picture(Next(a, Report(i)), i) == Picture(a, i).(sv := Picture(a, i).sv.(mode := Idle))
  {
    var g, leader := Current(a), Leader(a);
    ReportSeat(g, leader, i, i);
    PictureAtWork(a, i);
    PictureBySeat(a, g.(reporters := g.reporters + [i]), i);
  }

  lemma ReportLeader(a: Progress, i: nat)
    requires ReportReady(a, i)
    ensures var n := Picture(a, Leader(a));
            Picture(Next(a, Report(i)), Leader(a)) == n.(sv := OnReport(n.sv, i), reporters := n.reporters + [i])
  {
    var g, leader := Current(a), Leader(a);
    ReportSeat(g, leader, i, leader);
    BegunAtWork(a, leader);
    PictureAtWork(a, leader);
    PictureBySeat(a, g.(reporters := g.reporters + [i]), leader);
  }

  lemma ReportOthers(a: Progress, i: nat, j: nat)
    requires ReportReady(a, i) && On(a.size, j) && j != i && j != Leader(a)
    ensures Picture(Next(a, Report(i)), j) == Picture(a, j)
  {
    ReportSeat(Current(a), Leader(a), i, j);
    PictureSameSeat(a, Current(a).(reporters := Current(a).reporters + [i]), j);
  }

  lemma ReportApplied(s: Net, i: nat, index: nat, j: nat)
    requires index != i
    ensures var n := At(s, j);
            At(ApplySession(s, i, index), j) ==
            if j == i then n.(sv := n.sv.(mode := Idle))
            else if j == index then n.(sv := OnReport(n.sv, i), reporters := n.reporters + [i])
            else n
  {
  }

  lemma ReportStep(a: Progress, s: Net, i: nat)
    requires Depicts(a, s) && Enabled(s, Report(i))
    ensures Depicts(Next(a, Report(i)), Apply(s, Report(i)))
    ensures IndexOf(s, i) == Leader(a)
  {
    assert At(s, i) == Picture(a, i);
    ReportOk(a, i);
    var s' := ApplySession(s, i, Leader(a));
    assert Apply(s, Report(i)) == s';
    forall j: nat | On(s.size, j)
      ensures j in s'.nodes && At(s', j) == Picture(Next(a, Report(i)), j)
    {
      assert At(s, j) == Picture(a, j);
      ReportApplied(s, i, Leader(a), j);
      if j == i {
        ReportReporter(a, i);
      } else if j == Leader(a) {
        ReportLeader(a, i);
      } else {
        ReportOthers(a, i, j);
      }
    }
  }
}
