/** The `Server` record of one node and the code that changes it in place: server_init, the states of the main
    loop that run the ring protocols, server_healthcheck and xprocedure_check_peer_b. Every method is proved to
    do what the step system says; what the system as a whole promises is proved there. */
module Servers {
  import opened Types
  import opened Ring

  class ServerRecord {
    const id: nat
    var mode: Mode
    var netSize: nat
    var deathCount: nat
    var fwdId: nat
    var fwdAddress: nat
    const bwdId: nat
    var bwdOpen: bool
    var indexId: nat
    var indexAddress: nat
    var peerTable: array<nat>
    var knownPeers: nat
    var connected: nat

    /** The value of the record. */
    function Value(): Server
      reads this, peerTable
    {
      Server(id, mode, netSize, deathCount, fwdId, fwdAddress, bwdId, bwdOpen, indexId, indexAddress,
             peerTable[..], knownPeers, connected)
    }

    /** server_init with the arguments of boot.sh, once both neighbours are connected. The backward neighbour's id
        is computed by the ring formula; RingPicture.BootPred shows that it is the predecessor. */
    constructor (ring: nat, me: nat)
      requires ring >= 1 && 1 <= me <= ring
      ensures Value() == Boot(ring, me) && fresh(peerTable)
    {
      id := me;
      mode := BeginOperation;
      netSize := ring;
      deathCount := 0;
      fwdId := if me >= ring then 1 else me + 1;
      fwdAddress := AddressOf(if me >= ring then 1 else me + 1);
      RingModIsMod(me + ring - 2, ring);
      bwdId := (me - 2 + ring) % ring + 1;
      bwdOpen := true;
      indexId := 0;
      indexAddress := 0;
      peerTable := new nat[0];
      knownPeers := 0;
      connected := 0;
    }

    /** SERVER_BEGIN_OPERATION. The new peer table holds whatever malloc left there. */
    method Begin(memory: array<nat>)
      requires memory.Length == netSize
      modifies this
      ensures Value() == OnBegin(old(Value()), memory[..])
      ensures peerTable == (if old(netSize) == id then memory else old(peerTable))
    {
      if netSize == id {
        peerTable := memory;
        knownPeers := 0;
        mode := PresentItself;
      } else {
        mode := WaitGossip;
      }
    }

    /** SERVER_INDEX_PRESENT_ITSELF; `sent` goes to the forward neighbour. */
    method Present() returns (sent: Packet)
      modifies this
      ensures Value() == OnPresent(old(Value())) && sent == Presentation(old(Value()))
      ensures peerTable == old(peerTable)
    {
      indexId := id;
      sent := IndexPresentation(id, AddressOf(id));
      mode := WaitingKnowledge;
      connected := 0; // server_set_state resets the counter
    }

    /** SERVER_WAIT_INDEX_GOSSIP. */
    method TakeGossip(p: Packet) returns (sent: seq<Packet>)
      modifies this
      ensures Value() == OnGossip(old(Value()), p) && sent == GossipForward(old(Value()), p)
      ensures peerTable == old(peerTable)
    {
      sent := [];
      match p {
        case IndexPresentation(index, address) =>
          indexAddress := address;
          indexId := index;
          if index != fwdId {
            sent := [p];
          }
          mode := ReportKnowledge;
        case PeerDied(_, _) => mode := Confused;
      }
    }

    /** server_index_save_reported_peer. */
    method SaveReportedPeer(sender: nat)
      requires HasEntry(Value(), sender)
      modifies this, peerTable
      ensures Value() == old(Value()).(ports := SetPort(old(Value()).ports, sender, AddressOf(sender)),
                                       knownPeers := old(knownPeers) + 1)
      ensures peerTable == old(peerTable)
    {
      knownPeers := knownPeers + 1;
      peerTable[sender - 1] := AddressOf(sender);
    }

    /** One session of SERVER_INDEX_WAITING_PEERS_KNOWLEDGE, from the report of the node itself to its last OK. */
    method TakeReport(sender: nat)
      requires mode == WaitingKnowledge && HasEntry(Value(), sender)
      modifies this, peerTable
      ensures Value() == OnReport(old(Value()), sender) && peerTable == old(peerTable)
    {
      SaveReportedPeer(sender);
      connected := connected + 1;
      if connected == netSize - 1 {
        mode := Idle;
      }
    }

    /** The uint64 net size goes down by one. */
    method CountDown()
      modifies this`netSize
      ensures netSize == Decrement(old(netSize))
      ensures old(netSize) < 0x1_0000_0000_0000_0000 ==>
                netSize == (old(netSize) + 0xffff_ffff_ffff_ffff) % 0x1_0000_0000_0000_0000
    {
      netSize := if netSize == 0 then 0xffff_ffff_ffff_ffff else netSize - 1;
    }

    method ErasePeer(peer: nat)
      requires IsIndex(Value()) ==> HasEntry(Value(), peer)
      modifies peerTable
      ensures Value() == old(Value()).(ports := Erase(old(Value()), peer))
    {
      if indexId == id {
        peerTable[peer - 1] := 0;
      }
    }

    /** server_healthcheck, when the peek finds the backward socket closed: the net size goes down here and once more in
        xprocedure_peer_died_notify. */
    method HealthCheck() returns (sent: Packet)
      requires bwdOpen && (IsIndex(Value()) ==> HasEntry(Value(), bwdId))
      modifies this, peerTable
      ensures Value() == OnDetect(old(Value())) && sent == Notice(old(Value())) && peerTable == old(peerTable)
    {
      bwdOpen := false;
      CountDown();
      deathCount := deathCount + 1;
      sent := PeerDied(bwdId, AddressOf(id));
      CountDown();
      ErasePeer(bwdId);
      mode := WaitingNewPeer;
    }

    /** xprocedure_check_peer_b on one packet; `redial` says that the node now dials its new forward address. */
    method CheckPeerB(p: Packet) returns (sent: seq<Packet>, redial: bool)
      requires CanHandle(Value(), p)
      modifies this, peerTable
      ensures Value() == OnPeerPacket(old(Value()), p) && peerTable == old(peerTable)
      ensures redial == Relinks(old(Value()), p) && sent == if p.PeerDied? && !redial then [p] else []
    {
      sent, redial := [], false;
      if p.PeerDied? {
        CountDown();
        deathCount := deathCount + 1;
        if fwdId == p.peer {
          RingModIsMod(id + 1, netSize);
          fwdAddress := p.widow;
          fwdId := (id + 1) % netSize;
          redial := true;
        } else {
          sent := [p];
        }
        if indexId != id && p.peer == indexId {
          mode := BeginOperation;
        }
        ErasePeer(p.peer);
      }
    }

    /** SERVER_WAITING_NEW_PEER, when somebody has dialled in. */
    method AcceptPeer()
      requires mode == WaitingNewPeer
      modifies this
      ensures Value() == OnAccept(old(Value())) && peerTable == old(peerTable)
    {
      bwdOpen := true;
      mode := if id == 1 then BeginOperation else Idle;
    }
  }
}
