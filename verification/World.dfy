/** The whole store as one step system: the ring protocols and the files together.

    A state is the state of the ring, what the nodes hold, and the files that clients have stored so far. A
    protocol step moves files where the code does: a node that takes the lead indexes its own files, a
    report hands a node's files over to the index, a death takes a node's files away. Clients may store
    files whenever the ring is at rest and its original index is alive. */
module World {
  import opened Types
  import opened Placement
  import opened Cluster
  import opened PutPhase
  import opened Losses
  import opened Failover
  import Ring
  import RingRuns
  import RingTheorems

  /** `early` counts the files that were stored before anybody died. */
  datatype World = World(net: Ring.Net, data: System, files: seq<File>, early: nat)

  datatype Event = Protocol(action: Ring.Action) | Put(file: File)

  function ViewOf(sv: Ring.Server): IndexView {
    IndexView(sv.id, sv.netSize, sv.deathCount, sv.knownPeers, sv.ports)
  }

  /** What the current index sees. */
  function View(net: Ring.Net): IndexView
    requires net.size >= 1
  {
    ViewOf(Ring.Sv(net, RingTheorems.LeaderOf(net)))
  }

  function StartWorld(ring: nat): World {
    World(Ring.Initial(ring), Empty(ring), [], 0)
  }

  // ---------------------------------------------------------------- what protocol steps do to files

  /** The index takes everything that node n reports. */
  function TakeReports(data: System, index: nat, n: nat): System {
    var st := SaveAll(Rebuilt(data.index, StoreIn(data.stores, index)), Reports(StoreIn(data.stores, n), n));
    System(data.stores[index := st.store], st.index)
  }

  /** A node begins; if it leads, it starts an index with its own files. */
  function Beginning(data: System, leads: bool, i: nat): System {
    if leads then TakeReports(System(data.stores, []), i, i) else data
  }

  function DataAfter(net: Ring.Net, data: System, action: Ring.Action): System {
    match action
    case Begin(i, _) => Beginning(data, Ring.Sv(net, i).netSize == Ring.Sv(net, i).id, i)
    case Report(i) => TakeReports(data, Ring.IndexOf(net, i), i)
    case Die(i) => Without(data, i)
    case Present(_) => data
    case Gossip(_) => data
    case Detect(_) => data
    case ReadNotice(_) => data
    case Accept(_) => data
  }

  // ---------------------------------------------------------------- steps and runs

  /** What a client may store: sizes are ints. Of the name only a C string of 199 characters is kept. */
  predicate Storable(f: File) {
    |f.data| < 0x8000_0000
  }

  ghost predicate Possible(w: World, e: Event) {
    && w.net.size >= 1
    && match e
       case Protocol(action) => Ring.Allowed(w.net, action)
       case Put(f) =>
         && RingRuns.Settled(w.net) && w.net.dead != w.net.size
         && |w.files| < MAX_FILES && Storable(f)
         && CanPlace(w.data, View(w.net), f) && PutFile(w.data, View(w.net), f).Some?
  }

  function Happen(w: World, e: Event): World
    requires Possible(w, e)
  {
    match e
    case Protocol(action) => World(Ring.Apply(w.net, action), DataAfter(w.net, w.data, action), w.files, w.early)
    case Put(f) =>
      World(w.net, PutFile(w.data, View(w.net), f).value, w.files + [f],
            if w.net.dead == 0 then w.early + 1 else w.early)
  }

  ghost predicate IsHistory(w: World, events: seq<Event>)
    decreases |events|
  {
    events != [] ==> Possible(w, events[0]) && IsHistory(Happen(w, events[0]), events[1..])
  }

  function AfterAll(w: World, events: seq<Event>): World
    requires IsHistory(w, events)
    decreases |events|
  {
    if events == [] then w else AfterAll(Happen(w, events[0]), events[1..])
  }
}
