/** A closed form of every reachable state of the ring.

    However the steps interleave, a reachable state is determined by a handful of counters: who has begun,
    how far the index's presentation and the death notice have travelled, who has reported. `Picture`
    gives each node's whole record from these counters. */
module RingPicture {
  import opened Types
  import opened Ring

  /** The formation of a ring 1..leader around its leader: who has begun, whether the leader has presented
      itself, how many nodes the presentation has reached, who has reported, and what the leader's freshly
      allocated peer table contained. */
  datatype Formation = Formation(begun: set<nat>, presented: bool, gossip: nat, reporters: seq<nat>, memory: seq<nat>)

  const NOTHING: Formation := Formation({}, false, 0, [], [])

  /** The first formation; then possibly a death, the number of nodes that know of it (in ring order from the
      widow on) and whether the widow has accepted its new neighbour; then, if the index died, a second formation. */
  datatype Progress = Progress(size: nat, first: Formation, dead: nat, notices: nat, accepted: bool, second: Formation)

  // ---------------------------------------------------------------- formation

  ghost predicate FormationOk(g: Formation, leader: nat) {
    && leader >= 2
    && (forall i :: i in g.begun ==> 1 <= i <= leader)
    && (leader in g.begun ==> |g.memory| == leader)
    && (g.presented ==> leader in g.begun)
    && g.gossip < leader && (g.gossip > 0 ==> g.presented)
    && (forall i :: 1 <= i <= g.gossip ==> i in g.begun)
    && Distinct(g.reporters) && (g.reporters != [] ==> g.gossip > 0)
    && forall k :: 0 <= k < |g.reporters| ==> 1 <= g.reporters[k] <= g.gossip
  }

  predicate Complete(g: Formation, leader: nat) {
    g.presented && g.gossip == leader - 1 && |g.reporters| == leader - 1
  }

  function FormationMode(g: Formation, leader: nat, i: nat): Mode {
    if i !in g.begun then BeginOperation
    else if i == leader then
      if !g.presented then PresentItself
      else if |g.reporters| == leader - 1 then Idle
      else WaitingKnowledge
    else if i > g.gossip then WaitGossip
    else if i in g.reporters then Idle
    else ReportKnowledge
  }

  /** The presentation is in flight from the last node it has reached. */
  function FormationOut(g: Formation, leader: nat, i: nat): seq<Packet> {
    if (i == leader && g.presented && g.gossip == 0) || (i == g.gossip && 0 < i < leader - 1)
    then [IndexPresentation(leader, AddressOf(leader))]
    else []
  }

  /** The peer table after these reports. */
  function Filled(memory: seq<nat>, reporters: seq<nat>): (ports: seq<nat>)
    ensures |ports| == |memory|
  {
    if reporters == [] then memory
    else
      var last := reporters[|reporters| - 1];
      SetPort(Filled(memory, reporters[..|reporters| - 1]), last, AddressOf(last))
  }

  /** What a formation means for one node: its mode, what it has in flight, whether it has heard of the
      leader, whether it has proclaimed itself leader; and for the leader its peer table and its reporters. */
  datatype Seat = Seat(mode: Mode, out: seq<Packet>, informed: bool, proclaimed: bool,
                       leads: bool, table: seq<nat>, reporters: seq<nat>)

  function SeatOf(g: Formation, leader: nat, i: nat): Seat {
    var leads := i == leader && leader in g.begun;
    Seat(FormationMode(g, leader, i), FormationOut(g, leader, i),
         i < leader && i <= g.gossip, i == leader && g.presented,
         leads, if leads then Filled(g.memory, g.reporters) else [], if leads then g.reporters else [])
  }

  /** A node of the original ring, by its seat in the first formation. */
  function Forming(ring: nat, seat: Seat, i: nat): Node {
    Node(Server(i, seat.mode, ring, 0,
                Succ(ring, i), AddressOf(Succ(ring, i)), Pred(ring, i), true,
                if seat.informed || seat.proclaimed then ring else 0,
                if seat.informed then AddressOf(ring) else 0,
                seat.table, |seat.reporters|, |seat.reporters|),
         seat.out, Pred(ring, i), [],
         if seat.informed then [ring] else [], [], seat.reporters)
  }

  // ---------------------------------------------------------------- after a death

  /** How far node i is from the widow, along the ring. */
  function Distance(ring: nat, dead: nat, i: nat): int {
    var widow := Succ(ring, dead);
    if i >= widow then i - widow else i - widow + ring
  }

  predicate Knows(a: Progress, i: nat) {
    a.dead != 0 && i != a.dead && Distance(a.size, a.dead, i) < a.notices
  }

  /** Node i takes part in the second formation. */
  predicate Restarted(a: Progress, i: nat) {
    a.dead == a.size && Knows(a, i) && (i == 1 ==> a.accepted)
  }

  ghost predicate ProgressOk(a: Progress) {
    && a.size >= 2 && a.dead <= a.size
    && FormationOk(a.first, a.size)
    && (a.dead != 0 ==> Survivable(a.size, a.dead) && Complete(a.first, a.size))
    && (a.dead == 0 ==> a.notices == 0)
    && a.notices < a.size
    && (a.accepted ==> a.notices == a.size - 1)
    && (a.dead != a.size ==> a.second == NOTHING)
    && (a.dead == a.size ==> FormationOk(a.second, a.size - 1) && forall i :: i in a.second.begun ==> Restarted(a, i))
  }

  /** No second formation: the node stays as it is. */
  const SEATED: Seat := Seat(Idle, [], false, false, false, [], [])

  function SecondSeat(a: Progress, i: nat): Seat
    requires a.size >= 1
  {
    if a.dead == a.size then SeatOf(a.second, a.size - 1, i) else SEATED
  }

  /** A survivor that knows of the death, by what it was before and its seat in the second formation. */
  function Bereaved(a: Progress, base: Node, seat: Seat, i: nat): Node
    requires a.size >= 2
  {
    var ring, widow, orphan := a.size, Succ(a.size, a.dead), Pred(a.size, a.dead);
    var sv := base.sv.(
      mode := if i == widow && !a.accepted then WaitingNewPeer else seat.mode,
      netSize := if i == widow then ring - 2 else ring - 1,
      deathCount := 1,
      fwdId := if i == orphan then RingMod(i + 1, ring - 1) else base.sv.fwdId,
      fwdAddress := if i == orphan then AddressOf(widow) else base.sv.fwdAddress,
      bwdOpen := i != widow || a.accepted,
      indexId := if seat.informed || seat.proclaimed then ring - 1 else base.sv.indexId,
      indexAddress := if seat.informed then AddressOf(ring - 1) else base.sv.indexAddress,
      ports := if seat.leads then seat.table
               else if i == ring then SetPort(base.sv.ports, a.dead, 0) else base.sv.ports,
      knownPeers := if seat.leads then |seat.reporters| else base.sv.knownPeers,
      connected := if seat.leads then |seat.reporters| else base.sv.connected);
    Node(sv,
         if i != orphan && Distance(ring, a.dead, i) + 1 == a.notices then [PeerDied(a.dead, AddressOf(widow))]
         else seat.out,
         if i == widow && a.accepted then orphan else Pred(ring, i),
         if i == widow && a.notices == ring - 1 && !a.accepted then [orphan] else [],
         if seat.informed then base.heard + [ring - 1] else base.heard,
         if i == widow then [] else [a.dead],
         if seat.leads then seat.reporters else base.reporters)
  }

  /** What node i was before anybody died. */
  function Base(a: Progress, i: nat): Node {
    Forming(a.size, SeatOf(a.first, a.size, i), i)
  }

  /** The whole record of node i. */
  function Picture(a: Progress, i: nat): Node
    requires a.size >= 2
  {
    if i == a.dead then Base(a, i).(sv := Base(a, i).sv.(mode := Dead))
    else if Knows(a, i) then Bereaved(a, Base(a, i), SecondSeat(a, i), i)
    else Base(a, i)
  }

  /** State s is the one these counters describe. */
  ghost predicate Depicts(a: Progress, s: Net) {
    && ProgressOk(a)
    && s.size == a.size && s.dead == a.dead
    && forall i: nat :: On(s.size, i) ==> i in s.nodes && At(s, i) == Picture(a, i)
  }

  // ---------------------------------------------------------------- how the counters move

  /** The formation under way. */
  function Current(a: Progress): Formation {
    if a.dead == 0 then a.first else a.second
  }

  function Leader(a: Progress): nat
    requires a.size >= 1
  {
    if a.dead == a.size then a.size - 1 else a.size
  }

  function WithCurrent(a: Progress, g: Formation): Progress {
    if a.dead == 0 then a.(first := g) else a.(second := g)
  }

  function Next(a: Progress, action: Action): Progress
    requires a.size >= 1
  {
    var g := Current(a);
    match action
    case Begin(i, memory) => WithCurrent(a, Beginning(g, Leader(a), i, memory))
    case Present(_) => WithCurrent(a, g.(presented := true))
    case Gossip(_) => WithCurrent(a, g.(gossip := g.gossip + 1))
    case Report(i) => WithCurrent(a, g.(reporters := g.reporters + [i]))
    case Die(i) => a.(dead := i)
    case Detect(_) => a.(notices := a.notices + 1)
    case ReadNotice(_) => a.(notices := a.notices + 1)
    case Accept(_) => a.(accepted := true)
  }

  function Beginning(g: Formation, leader: nat, i: nat, memory: seq<nat>): Formation {
    g.(begun := g.begun + {i}, memory := if i == leader then memory else g.memory)
  }

  function Start(ring: nat): Progress {
    Progress(ring, NOTHING, 0, 0, false, NOTHING)
  }

  lemma BootPred(ring: nat, i: nat)
    requires 2 <= ring && 1 <= i <= ring
    ensures RingMod(i + ring - 2, ring) + 1 == Pred(ring, i)
  {
    if i >= 2 {
      assert RingMod(i + ring - 2, ring) == RingMod(i - 2, ring);
    }
  }

  lemma InitialDepicted(ring: nat)
    requires ring >= 2
    ensures Depicts(Start(ring), Initial(ring))
  {
    forall i: nat | On(ring, i)
      ensures i in Initial(ring).nodes && At(Initial(ring), i) == Picture(Start(ring), i)
    {
      BootPred(ring, i);
    }
  }
}
