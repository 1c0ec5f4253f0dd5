/** The ring protocols as a step system: index gossip, knowledge reports, death detection, the death
    notice, ring repair and the takeover of leadership.

    A state holds every node's `Server` fields, the contents of every node's forward stream, which
    stream each node's backward socket reads, and the connections waiting to be accepted. A step is
    one turn of one node's main loop, or the death of a node. */
module Ring {
  import opened Types

  datatype Mode =
    | BeginOperation | PresentItself | WaitingKnowledge   // becoming the index
    | WaitGossip | ReportKnowledge                        // following an index
    | Idle | WaitingNewPeer
    | Confused                                            // took a death notice for a presentation
    | Dead

  datatype Packet =
    | IndexPresentation(index: nat, address: nat)
    | PeerDied(peer: nat, widow: nat)

  datatype Server = Server(
    id: nat, mode: Mode,
    netSize: nat, deathCount: nat,
    fwdId: nat, fwdAddress: nat,
    bwdId: nat, bwdOpen: bool,
    indexId: nat, indexAddress: nat,
    ports: seq<nat>, knownPeers: nat, connected: nat)

  // ---------------------------------------------------------------- handlers of one node

  /** uint64 decrement. */
  function Decrement(n: nat): nat {
    if n == 0 then 0xffff_ffff_ffff_ffff else n - 1
  }

  /** server_init, once both neighbours are connected. */
  function Boot(ring: nat, i: nat): Server
    requires i + ring >= 2
  {
    Server(i, BeginOperation, ring, 0, Succ(ring, i), AddressOf(Succ(ring, i)),
           RingMod(i + ring - 2, ring) + 1, true, 0, 0, [], 0, 0)
  }

  /** SERVER_BEGIN_OPERATION. `memory` is what malloc returns for the peer table: anything. */
  function OnBegin(sv: Server, memory: seq<nat>): Server {
    if sv.netSize == sv.id then sv.(mode := PresentItself, ports := memory, knownPeers := 0)
    else sv.(mode := WaitGossip)
  }

  /** SERVER_INDEX_PRESENT_ITSELF. */
  function OnPresent(sv: Server): Server {
    sv.(indexId := sv.id, mode := WaitingKnowledge, connected := 0)
  }

  function Presentation(sv: Server): Packet {
    IndexPresentation(sv.id, AddressOf(sv.id))
  }

  /** SERVER_WAIT_INDEX_GOSSIP: whatever arrives is taken for a presentation. */
  function OnGossip(sv: Server, p: Packet): Server {
    match p
    case IndexPresentation(index, address) => sv.(indexId := index, indexAddress := address, mode := ReportKnowledge)
    case PeerDied(_, _) => sv.(mode := Confused)
  }

  /** The presentation goes on around the ring until the next node is the index. */
  function GossipForward(sv: Server, p: Packet): seq<Packet> {
    if p.IndexPresentation? && p.index != sv.fwdId then [p] else []
  }

  /** The peer-table entry of a node is inside the table. */
  predicate HasEntry(sv: Server, node: nat) {
    1 <= node <= |sv.ports|
  }

  /** Writing a peer-table entry; steps that would write outside the table are not enabled. */
  function SetPort(ports: seq<nat>, node: nat, address: nat): (r: seq<nat>)
    ensures |r| == |ports|
  {
    if 1 <= node <= |ports| then ports[node - 1 := address] else ports
  }

  /** One reporting session, seen from the index. */
  function OnReport(index: Server, from: nat): Server {
    index.(ports := SetPort(index.ports, from, AddressOf(from)), knownPeers := index.knownPeers + 1,
    connected := index.connected + 1,
    mode := if index.connected + 1 == index.netSize - 1 then Idle else WaitingKnowledge)
  }

  predicate IsIndex(sv: Server) {
    sv.indexId == sv.id
  }

  /** Erasing a dead peer from the table; only the index has one. */
  function Erase(sv: Server, peer: nat): seq<nat> {
    if IsIndex(sv) then SetPort(sv.ports, peer, 0) else sv.ports
  }

  /** server_healthcheck on a closed backward socket; net_size is decremented here and again while notifying. */
  function OnDetect(sv: Server): Server {
    sv.(bwdOpen := false, netSize := Decrement(Decrement(sv.netSize)), deathCount := sv.deathCount + 1,
    ports := Erase(sv, sv.bwdId), mode := WaitingNewPeer)
  }

  function Notice(sv: Server): Packet {
    PeerDied(sv.bwdId, AddressOf(sv.id))
  }

  /** What the death notice demands of its reader: the re-link divides by the new net size, and an
      index erases the dead peer's table entry. */
  predicate CanHandle(sv: Server, p: Packet) {
    p.PeerDied? ==> sv.netSize != 1 && (IsIndex(sv) ==> HasEntry(sv, p.peer))
  }

  predicate Relinks(sv: Server, p: Packet) {
    p.PeerDied? && sv.fwdId == p.peer
  }

  /** xprocedure_check_peer_b. A presentation read here has type byte 0 and is dropped. */
  function OnPeerPacket(sv: Server, p: Packet): Server {
    match p
    case IndexPresentation(_, _) => sv
    case PeerDied(peer, widow) =>
      var n := Decrement(sv.netSize);
      var counted := sv.(netSize := n, deathCount := sv.deathCount + 1, ports := Erase(sv, peer));
      var linked :=
        if Relinks(sv, p) then counted.(fwdAddress := widow, fwdId := RingMod(sv.id + 1, n)) else counted;
      if !IsIndex(sv) && peer == sv.indexId then linked.(mode := BeginOperation) else linked
  }

  /** SERVER_WAITING_NEW_PEER. The backward neighbour's id is not refreshed. */
  function OnAccept(sv: Server): Server {
    sv.(bwdOpen := true, mode := if sv.id == 1 then BeginOperation else Idle)
  }

  // ---------------------------------------------------------------- the network

  /** A node with its connections: `out` is in flight on its forward connection, its backward socket
      reads what node `source` has in flight, and `pending` are the nodes that have dialled it and wait to
      be accepted. The last three fields record what happened: the presentations it has taken (index
      ids), the notices it has read (dead ids), and who has reported to it as an index, in order. */
  datatype Node = Node(
    sv: Server, out: seq<Packet>, source: nat, pending: seq<nat>,
    heard: seq<nat>, notified: seq<nat>, reporters: seq<nat>)

  datatype Net = Net(size: nat, dead: nat, nodes: map<nat, Node>)

  datatype Action =
    | Begin(node: nat, memory: seq<nat>) | Present(node: nat) | Gossip(node: nat) | Report(node: nat)
    | Die(node: nat) | Detect(node: nat) | ReadNotice(node: nat) | Accept(node: nat)

  /** The ring started by boot.sh. */
  function Initial(ring: nat): Net {
    Net(ring, 0, map i | i in RingNodes(ring) :: Node(Boot(ring, i), [], Pred(ring, i), [], [], [], []))
  }

  const NOWHERE: Node := Node(Server(0, Dead, 0, 0, 0, 0, 0, false, 0, 0, [], 0, 0), [], 0, [], [], [], [])

  function At(s: Net, i: nat): Node {
    if i in s.nodes then s.nodes[i] else NOWHERE
  }

  function Sv(s: Net, i: nat): Server {
    At(s, i).sv
  }

  /** What node i will read next. */
  function Incoming(s: Net, i: nat): seq<Packet> {
    At(s, At(s, i).source).out
  }

  ghost predicate AllIdle(s: Net) {
    forall i: nat :: On(s.size, i) && i != s.dead ==> Sv(s, i).mode == Idle
  }

  /** At most one node dies, once the ring has formed. Two nodes are no ring to repair; and if the index
      of three dies, two survivors take its place (TwoLeadersOfThree). */
  predicate Survivable(ring: nat, dead: nat) {
    ring >= 3 && (dead == ring ==> ring >= 4)
  }

  /** The index that node i dials to report. */
  function IndexOf(s: Net, i: nat): nat {
    NodeAt(Sv(s, i).indexAddress)
  }

  ghost predicate Enabled(s: Net, a: Action) {
    && On(s.size, a.node)
    && var sv := Sv(s, a.node);
       match a
       case Begin(_, memory) => sv.mode == BeginOperation && |memory| == sv.netSize
       case Present(_) => sv.mode == PresentItself
       case Gossip(i) => sv.mode == WaitGossip && Incoming(s, i) != []
       case Report(i) =>
         && sv.mode == ReportKnowledge
         && On(s.size, IndexOf(s, i)) && IndexOf(s, i) != i
         && Sv(s, IndexOf(s, i)).mode == WaitingKnowledge && HasEntry(Sv(s, IndexOf(s, i)), i)
       case Die(i) => s.dead == 0 && AllIdle(s)
       case Detect(i) =>
         && sv.mode == Idle && sv.bwdOpen
         && Sv(s, At(s, i).source).mode == Dead && Incoming(s, i) == []
         && (IsIndex(sv) ==> HasEntry(sv, sv.bwdId))
       case ReadNotice(i) =>
         && sv.mode == Idle && sv.bwdOpen && Incoming(s, i) != []
         && CanHandle(sv, Incoming(s, i)[0])
         && (Relinks(sv, Incoming(s, i)[0]) ==> On(s.size, NodeAt(Incoming(s, i)[0].widow)))
       case Accept(i) =>
         sv.mode == WaitingNewPeer && At(s, i).pending != [] && On(s.size, At(s, i).pending[0])
  }

  function Apply(s: Net, a: Action): Net
    requires Enabled(s, a)
  {
    match a
    case Begin(i, memory) => Set(s, i, At(s, i).(sv := OnBegin(Sv(s, i), memory)))
    case Present(i) => Set(s, i, Sending(At(s, i), OnPresent(Sv(s, i)), [Presentation(Sv(s, i))]))
    case Gossip(i) => ApplyGossip(s, i, Incoming(s, i)[0])
    case Report(i) => ApplySession(s, i, IndexOf(s, i))
    case Die(i) => Set(s.(dead := i), i, At(s, i).(sv := Sv(s, i).(mode := Dead)))
    case Detect(i) => Set(s, i, Sending(At(s, i), OnDetect(Sv(s, i)), [Notice(Sv(s, i))]))
    case ReadNotice(i) => ApplyNotice(s, i, Incoming(s, i)[0])
    case Accept(i) => Set(s, i, Accepting(At(s, i)))
  }

  function Set(s: Net, i: nat, n: Node): Net {
    s.(nodes := s.nodes[i := n])
  }

  /** A node with new fields that has sent some packets forward. */
  function Sending(n: Node, sv: Server, packets: seq<Packet>): Node {
    n.(sv := sv, out := n.out + packets)
  }

  function Accepting(n: Node): Node
    requires n.pending != []
  {
    n.(sv := OnAccept(n.sv), source := n.pending[0], pending := n.pending[1..])
  }

  /** The network after node i has read one packet. */
  function Consume(s: Net, i: nat): Net {
    var from := At(s, i).source;
    Set(s, from, At(s, from).(out := if Incoming(s, i) == [] then [] else Incoming(s, i)[1..]))
  }

  function ApplyGossip(s: Net, i: nat, p: Packet): Net {
    var s1 := Consume(s, i);
    var n := Sending(At(s1, i), OnGossip(Sv(s, i), p), GossipForward(Sv(s, i), p));
    Set(s1, i, if p.IndexPresentation? then n.(heard := n.heard + [p.index]) else n)
  }

  function ApplySession(s: Net, i: nat, index: nat): Net {
    var s1 := Set(s, i, At(s, i).(sv := Sv(s, i).(mode := Idle)));
    var n := At(s, index);
    Set(s1, index, n.(sv := OnReport(n.sv, i), reporters := n.reporters + [i]))
  }

  function ApplyNotice(s: Net, i: nat, p: Packet): Net {
    var s1 := Consume(s, i);
    match p
    case IndexPresentation(_, _) => s1
    case PeerDied(peer, widow) =>
      var n := At(s1, i).(sv := OnPeerPacket(Sv(s, i), p), notified := At(s, i).notified + [peer]);
      if Relinks(Sv(s, i), p) then Dial(Set(s1, i, n.(out := [])), i, NodeAt(widow))
      else Set(s1, i, n.(out := n.out + [p]))
  }

  /** Node i dials node `target`. */
  function Dial(s: Net, i: nat, target: nat): Net {
    Set(s, target, At(s, target).(pending := At(s, target).pending + [i]))
  }

  /** A step of the system: an enabled action, deaths being limited to survivable ones. */
  ghost predicate Allowed(s: Net, a: Action) {
    Enabled(s, a) && (a.Die? ==> Survivable(s.size, a.node))
  }

  /** Every action of the list is allowed in turn. */
  ghost predicate IsRun(s: Net, actions: seq<Action>)
    decreases |actions|
  {
    actions != [] ==> Allowed(s, actions[0]) && IsRun(Apply(s, actions[0]), actions[1..])
  }

  function After(s: Net, actions: seq<Action>): Net
    requires IsRun(s, actions)
    decreases |actions|
  {
    if actions == [] then s else After(Apply(s, actions[0]), actions[1..])
  }
}
