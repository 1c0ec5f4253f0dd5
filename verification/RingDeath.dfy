/** The steps after a death: detection, the notice on its way around the ring, the repaired link. */
module RingDeath {
  import opened Types
  import opened Ring
  import opened RingPicture
  import opened RingSteps

  // ---------------------------------------------------------------- death

  lemma DieStep(a: Progress, s: Net, i: nat)
    requires Depicts(a, s) && Enabled(s, Die(i)) && Survivable(s.size, i)
    ensures Depicts(Next(a, Die(i)), Apply(s, Die(i)))
  {
    assert At(s, s.size) == Picture(a, s.size) && On(s.size, s.size);
    assert Sv(s, s.size).mode == Idle;
    ModeOf(a, s.size);
    ReportersComplete(a.first, a.size);
    forall j: nat | On(s.size, j)
      ensures j in Apply(s, Die(i)).nodes && At(Apply(s, Die(i)), j) == Picture(Next(a, Die(i)), j)
    {
      assert At(s, j) == Picture(a, j);
    }
  }

  // ---------------------------------------------------------------- detection

  /** Nobody restarts before the notice has been all the way around. */
  lemma NotYetRestarted(a: Progress)
    requires ProgressOk(a) && a.dead != 0 && a.notices < a.size - 1
    ensures !a.second.presented && a.second.gossip == 0 && a.second.reporters == []
    ensures forall i: nat :: !a.accepted && SecondSeat(a, i).out == []
    ensures forall i: nat :: i >= 1 ==>
              !SecondSeat(a, i).informed && !SecondSeat(a, i).proclaimed && !SecondSeat(a, i).leads
  {
    var leader: nat := a.size - 1;
    assert !Restarted(a, leader);
  }

  /** Only the widow can find its backward socket closed, and only before it has reported it. */
  lemma DetectOk(a: Progress, i: nat)
    requires ProgressOk(a) && On(a.size, i) && Picture(a, i).sv.mode == Idle && Picture(a, i).sv.bwdOpen
    requires Picture(a, Picture(a, i).source).sv.mode == Dead && On(a.size, Picture(a, i).source)
    ensures a.dead != 0 && i == Succ(a.size, a.dead) && a.notices == 0
    ensures ProgressOk(Next(a, Detect(i)))
  {
    ModeOf(a, Picture(a, i).source);
    NextDetectOk(a, i);
  }

  lemma NextDetectOk(a: Progress, i: nat)
    requires ProgressOk(a) && a.dead != 0 && a.notices == 0
    ensures ProgressOk(Next(a, Detect(i)))
  {
    NotYetRestarted(a);
  }

  lemma DetectWidow(a: Progress)
    requires ProgressOk(a) && a.dead != 0 && a.notices == 0
    ensures var i := Succ(a.size, a.dead);
            var n := Picture(a, i);
            Picture(Next(a, Detect(i)), i) == Sending(n, OnDetect(n.sv), [Notice(n.sv)])
  {
    var i := Succ(a.size, a.dead);
    CompleteSeat(a.first, a.size, i);
    NotYetRestarted(a);
    assert SecondSeat(a.(notices := 1), i) == SecondSeat(a, i);
    assert Picture(a, i) == Base(a, i);
  }

  lemma DetectOthers(a: Progress, j: nat)
    requires ProgressOk(a) && a.dead != 0 && a.notices == 0 && On(a.size, j) && j != Succ(a.size, a.dead)
    ensures Picture(a.(notices := 1), j) == Picture(a, j)
  {
  }

  lemma DetectStep(a: Progress, s: Net, i: nat)
    requires Depicts(a, s) && Enabled(s, Detect(i))
    ensures Depicts(Next(a, Detect(i)), Apply(s, Detect(i)))
  {
    DepictedSource(a, s, i);
    DetectOk(a, i);
    forall j: nat | On(s.size, j)
      ensures j in Apply(s, Detect(i)).nodes && At(Apply(s, Detect(i)), j) == Picture(Next(a, Detect(i)), j)
    {
      assert At(s, j) == Picture(a, j);
      if j == i {
        DetectWidow(a);
      } else {
        DetectOthers(a, j);
      }
    }
  }

  // ---------------------------------------------------------------- the notice

  /** An idle member of a formation has nothing left to hear. */
  lemma IdleHearsNothing(g: Formation, leader: nat, i: nat)
    requires FormationOk(g, leader) && 1 <= i <= leader && FormationMode(g, leader, i) == Idle
    ensures FormationOut(g, leader, Before(leader, i)) == []
  {
    if i == leader {
      ReportersComplete(g, leader);
    }
  }

  /** Node i is the next to read the notice, and it is there for it to read. */
  ghost predicate NoticeReady(a: Progress, i: nat) {
    && ProgressOk(a) && a.dead != 0 && On(a.size, i) && i != a.dead
    && 1 <= a.notices == Distance(a.size, a.dead, i) < a.size - 1
    && Picture(a, i).source == Pred(a.size, i) && Pred(a.size, i) != a.dead
    && Picture(a, Pred(a.size, i)).out == [PeerDied(a.dead, AddressOf(Succ(a.size, a.dead)))]
  }

  /** Going one node back along the ring is one step less from the widow. */
  lemma DistanceBack(ring: nat, dead: nat, i: nat)
    requires 1 <= dead <= ring && ring >= 2 && 1 <= i <= ring && i != Succ(ring, dead)
    ensures Distance(ring, dead, Pred(ring, i)) == Distance(ring, dead, i) - 1 >= 0
    ensures i != dead ==> Distance(ring, dead, i) < ring - 1 && Pred(ring, i) != dead
    ensures i != dead ==> (Distance(ring, dead, i) == ring - 2 <==> i == Pred(ring, dead))
  {
  }

  /** A node that knows of the death, is idle and listens, has nothing to read. */
  lemma InformedIdleHearsNothing(a: Progress, i: nat)
    requires ProgressOk(a) && On(a.size, i) && Knows(a, i)
    requires Picture(a, i).sv.mode == Idle && Picture(a, i).sv.bwdOpen
    ensures On(a.size, Picture(a, i).source) && Picture(a, Picture(a, i).source).out == []
  {
    ModeOf(a, i);
    if a.dead == a.size {
      IdleHearsNothing(a.second, a.size - 1, i);
      ReadsFrom(a, i);
    } else if i != Succ(a.size, a.dead) {
      DistanceBack(a.size, a.dead, i);
    }
  }

  /** An idle node that reads something reads the death notice, and is next to read it: in particular it
      never takes a presentation from the stream unawares. */
  lemma NoticeOk(a: Progress, i: nat)
    requires ProgressOk(a) && On(a.size, i) && Picture(a, i).sv.mode == Idle && Picture(a, i).sv.bwdOpen
    requires On(a.size, Picture(a, i).source) && Picture(a, Picture(a, i).source).out != []
    ensures NoticeReady(a, i)
  {
    ModeOf(a, i);
    if a.dead == 0 {
      IdleHearsNothing(a.first, a.size, i);
      ReadsFrom(a, i);
      assert false;
    } else if Knows(a, i) {
      InformedIdleHearsNothing(a, i);
      assert false;
    } else {
      var from := Pred(a.size, i);
      CompleteSeat(a.first, a.size, from);
      CompleteSeat(a.first, a.size, i);
      if i != Succ(a.size, a.dead) {
        DistanceBack(a.size, a.dead, i);
        NotYetRestarted(a);
      }
    }
  }

  function TheNotice(a: Progress): Packet {
    PeerDied(a.dead, AddressOf(Succ(a.size, a.dead)))
  }

  lemma NextNoticeOk(a: Progress, i: nat)
    requires NoticeReady(a, i)
    ensures ProgressOk(Next(a, ReadNotice(i)))
  {
    NotYetRestarted(a);
    assert forall j :: j in a.second.begun ==> Restarted(a, j);
  }

  /** What the reader of the notice becomes; the dead node's predecessor re-links instead of forwarding. */
  lemma NoticeReader(a: Progress, i: nat)
    requires NoticeReady(a, i)
    ensures var n, p := Picture(a, i), TheNotice(a);
            && CanHandle(n.sv, p) && (Relinks(n.sv, p) <==> i == Pred(a.size, a.dead))
            && Picture(Next(a, ReadNotice(i)), i) ==
               n.(sv := OnPeerPacket(n.sv, p), notified := n.notified + [a.dead],
               out := if i == Pred(a.size, a.dead) then [] else n.out + [p])
  {
    NoticeHandled(a, i);
    NotYetRestarted(a);
    DistanceBack(a.size, a.dead, i);
    var b := Next(a, ReadNotice(i));
    assert SecondSeat(b, i) == SecondSeat(a, i);
    assert i !in a.second.begun;
  }

  lemma NoticeHandled(a: Progress, i: nat)
    requires NoticeReady(a, i)
    ensures Picture(a, i) == Base(a, i) && Base(a, i).out == [] && Base(a, i).sv.mode == Idle
    ensures CanHandle(Base(a, i).sv, TheNotice(a))
    ensures Relinks(Base(a, i).sv, TheNotice(a)) <==> i == Pred(a.size, a.dead)
  {
    CompleteSeat(a.first, a.size, i);
  }

  /** A node that already knew, or still does not know, changes at most in what it has in flight and in
      who waits at its door. */
  lemma NoticeOthers(a: Progress, i: nat, j: nat)
    requires NoticeReady(a, i) && On(a.size, j) && j != i
    ensures var n := Picture(a, j);
            Picture(Next(a, ReadNotice(i)), j) ==
            n.(out := if j == Pred(a.size, i) then [] else n.out,
            pending := if i == Pred(a.size, a.dead) && j == Succ(a.size, a.dead) then n.pending + [i] else n.pending)
  {
    if Knows(a, j) {
      NoticeKnown(a, i, j);
    } else {
      DistanceBack(a.size, a.dead, i);
      SameDistance(a.size, a.dead, i, j);
      var from := Pred(a.size, i);
      assert Knows(a, from);
      assert Knows(a, Succ(a.size, a.dead));
    }
  }

  lemma NoticeKnown(a: Progress, i: nat, j: nat)
    requires NoticeReady(a, i) && On(a.size, j) && j != i && Knows(a, j)
    ensures var n := Picture(a, j);
            Picture(Next(a, ReadNotice(i)), j) ==
            n.(out := if j == Pred(a.size, i) then [] else n.out,
            pending := if i == Pred(a.size, a.dead) && j == Succ(a.size, a.dead) then n.pending + [i] else n.pending)
  {
    NotYetRestarted(a);
    DistanceBack(a.size, a.dead, i);
    SameDistance(a.size, a.dead, Pred(a.size, i), j);
    SameDistance(a.size, a.dead, i, j);
    BereavedNotified(a, Next(a, ReadNotice(i)), Base(a, j), SecondSeat(a, j), i, j);
  }

  /** What one more notice, read by node i, changes about a node that knows already. */
  lemma BereavedNotified(a: Progress, b: Progress, base: Node, seat: Seat, i: nat, j: nat)
    requires a.size >= 2 && 1 <= a.dead <= a.size && b == a.(notices := a.notices + 1) && !a.accepted && seat.out == []
    requires On(a.size, i) && On(a.size, j) && i != a.dead && i != j
    requires a.notices == Distance(a.size, a.dead, i) < a.size - 1
    requires Distance(a.size, a.dead, j) + 1 == a.notices <==> j == Pred(a.size, i)
    requires Distance(a.size, a.dead, j) != a.notices && Pred(a.size, i) != Pred(a.size, a.dead)
    ensures var n := Bereaved(a, base, seat, j);
            Bereaved(b, base, seat, j) ==
            n.(out := if j == Pred(a.size, i) then [] else n.out,
            pending := if i == Pred(a.size, a.dead) && j == Succ(a.size, a.dead) then n.pending + [i] else n.pending)
  {
  }

  lemma SameDistance(ring: nat, dead: nat, i: nat, j: nat)
    requires 1 <= dead <= ring && On(ring, i) && On(ring, j)
    ensures Distance(ring, dead, i) == Distance(ring, dead, j) <==> i == j
  {
  }

  lemma NoticeApplied(s: Net, i: nat, p: Packet, j: nat)
    requires p.PeerDied? && Incoming(s, i) == [p] && At(s, i).source != i && NodeAt(p.widow) != i
    ensures var n := At(s, j);
            At(ApplyNotice(s, i, p), j) ==
            if j == i then
              n.(sv := OnPeerPacket(n.sv, p), notified := n.notified + [p.peer],
              out := if Relinks(n.sv, p) then [] else n.out + [p])
            else
              n.(out := if j == At(s, i).source then [] else n.out,
              pending := if Relinks(Sv(s, i), p) && j == NodeAt(p.widow) then n.pending + [i] else n.pending)
  {
  }

  lemma NoticeStep(a: Progress, s: Net, i: nat)
    requires Depicts(a, s) && Enabled(s, ReadNotice(i))
    ensures Depicts(Next(a, ReadNotice(i)), Apply(s, ReadNotice(i)))
    ensures a.dead != 0 && Incoming(s, i)[0] == TheNotice(a)
  {
    DepictedSource(a, s, i);
    NoticeOk(a, i);
    NextNoticeOk(a, i);
    NoticeReader(a, i);
    var p := TheNotice(a);
    var s' := ApplyNotice(s, i, p);
    assert Incoming(s, i) == [p] && Apply(s, ReadNotice(i)) == s';
    assert NodeAt(p.widow) == Succ(a.size, a.dead);
    forall j: nat | On(s.size, j)
      ensures j in s'.nodes && At(s', j) == Picture(Next(a, ReadNotice(i)), j)
    {
      NoticeStepAt(a, s, i, j);
    }
  }

  lemma NoticeStepAt(a: Progress, s: Net, i: nat, j: nat)
    requires Depicts(a, s) && NoticeReady(a, i) && Incoming(s, i) == [TheNotice(a)] && On(s.size, i) && On(s.size, j)
    ensures var s' := ApplyNotice(s, i, TheNotice(a));
            j in s'.nodes && At(s', j) == Picture(Next(a, ReadNotice(i)), j)
  {
    assert At(s, i) == Picture(a, i) && At(s, j) == Picture(a, j);
    NoticeReader(a, i);
    NoticeApplied(s, i, TheNotice(a), j);
    if j != i {
      NoticeOthers(a, i, j);
    }
  }

  // ---------------------------------------------------------------- the repaired link

  lemma AcceptOk(a: Progress, i: nat)
    requires ProgressOk(a) && On(a.size, i)
    requires Picture(a, i).sv.mode == WaitingNewPeer && Picture(a, i).pending != []
    ensures a.dead != 0 && i == Succ(a.size, a.dead) && a.notices == a.size - 1 && !a.accepted
    ensures ProgressOk(Next(a, Accept(i)))
  {
    ModeOf(a, i);
    if a.dead == 0 || !Knows(a, i) || i != Succ(a.size, a.dead) || a.accepted {
      NeverWaits(a, i);
    }
  }

  lemma NeverWaits(a: Progress, i: nat)
    requires ProgressOk(a) && On(a.size, i)
    requires a.dead == 0 || !Knows(a, i) || i != Succ(a.size, a.dead) || a.accepted
    ensures Picture(a, i).sv.mode != WaitingNewPeer
  {
    ModeOf(a, i);
  }

  lemma AcceptWidow(a: Progress)
    requires ProgressOk(a) && a.dead != 0 && a.notices == a.size - 1 && !a.accepted
    ensures var i := Succ(a.size, a.dead);
            && Picture(a, i).pending == [Pred(a.size, a.dead)]
            && Picture(a.(accepted := true), i) == Accepting(Picture(a, i))
  {
    var i := Succ(a.size, a.dead);
    assert i !in a.second.begun by {
      assert !Restarted(a, i);
    }
    assert SecondSeat(a.(accepted := true), i) == SecondSeat(a, i);
  }

  lemma AcceptOthers(a: Progress, j: nat)
    requires ProgressOk(a) && a.dead != 0 && On(a.size, j) && j != Succ(a.size, a.dead)
    ensures Picture(a.(accepted := true), j) == Picture(a, j)
  {
    assert SecondSeat(a.(accepted := true), j) == SecondSeat(a, j);
  }

  lemma AcceptStep(a: Progress, s: Net, i: nat)
    requires Depicts(a, s) && Enabled(s, Accept(i))
    ensures Depicts(Next(a, Accept(i)), Apply(s, Accept(i)))
  {
    assert At(s, i) == Picture(a, i);
    AcceptOk(a, i);
    forall j: nat | On(s.size, j)
      ensures j in Apply(s, Accept(i)).nodes && At(Apply(s, Accept(i)), j) == Picture(Next(a, Accept(i)), j)
    {
      assert At(s, j) == Picture(a, j);
      if j == i {
        AcceptWidow(a);
      } else {
        AcceptOthers(a, j);
      }
    }
  }
}
