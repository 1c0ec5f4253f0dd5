/** Every history of the whole store keeps the files: the invariant, step by step. */
module WorldRuns {
  import opened Types
  import opened Placement
  import opened Storage
  import opened Cluster
  import opened PutPhase
  import opened Losses
  import opened Failover
  import opened TakeoverGet
  import opened Degraded
  import opened World
  import opened WorldViews
  import Ring
  import RingPicture
  import RingSteps
  import RingRuns
  import RingTheorems
  import RingRest

  // ---------------------------------------------------------------- the invariant

  /** Nobody has died: every node has exactly its share of every file. */
  ghost predicate Intact(w: World) {
    && w.net.size >= 1 && w.early == |w.files| && AllTransferable(w.net.size, w.files)
    && Same(w.data, Deposited(w.net.size, w.files))
    && (w.files != [] ==> RingRuns.Settled(w.net))
  }

  /** The files stored before anybody died. */
  function Early(w: World): seq<File> {
    if w.early <= |w.files| then w.files[..w.early] else []
  }

  /** A node other than the index has died. */
  ghost predicate Reduced(w: World, stored: System) {
    && w.net.size >= 1 && w.early <= |w.files|
    && (w.early == |w.files| ==> Same(w.data, Without(stored, w.net.dead)))
    && (w.early < |w.files| ==> RingRuns.Settled(w.net) && GrownSince(w, stored))
  }

  ghost predicate GrownSince(w: World, stored: System)
    requires w.net.size >= 1
  {
    Grown(Without(stored, w.net.dead), w.data, View(w.net), w.net.size, w.net.dead, w.files, w.early)
  }

  /** The index has died; from the moment node N - 1 takes the lead, it has rebuilt the index from its own
      files and those of the nodes that have reported so far. */
  ghost predicate Bequeathed(w: World, a: RingPicture.Progress, stored: System) {
    w.net.size >= 1 && w.early == |w.files| && InHandover(w.data, stored, w.net.size - 1, a.second)
  }

  /** What there was when the first node died. */
  ghost predicate Backup(w: World, stored: System) {
    && w.net.size >= 1 && w.early <= |w.files| && AllTransferable(w.net.size, Early(w))
    && Same(stored, Deposited(w.net.size, Early(w)))
  }

  function HandedOver(stored: System, leader: nat, g: RingPicture.Formation): System {
    if leader in g.begun then TakenOver(stored, leader, [leader] + g.reporters) else Without(stored, leader + 1)
  }

  ghost predicate Sound(w: World, a: RingPicture.Progress, stored: System) {
    && RingPicture.Depicts(a, w.net) && RingRuns.Reachable(w.net)
    && if w.net.dead == 0 then Intact(w) else Backup(w, stored) && Bereft(w, a, stored)
  }

  ghost predicate Bereft(w: World, a: RingPicture.Progress, stored: System) {
    if w.net.dead < w.net.size then Reduced(w, stored) else Bequeathed(w, a, stored)
  }

  lemma StartSound(ring: nat)
    requires ring >= 2
    ensures Sound(StartWorld(ring), RingPicture.Start(ring), Empty(ring))
  {
    RingPicture.InitialDepicted(ring);
    RingRest.ReachableInitial(ring);
    EmptyStored(ring);
  }

  // ---------------------------------------------------------------- clients' steps

  lemma PutDeposited(v: IndexView, ring: nat, files: seq<File>, f: File)
    requires FullView(v, ring)
    ensures CanPlace(Deposited(ring, files), v, f)
    ensures var r := PutFile(Deposited(ring, files), v, f);
            if Transferable(ring, f) then r == Some(Deposited(ring, files + [f])) else r == None
  {
    PutStep(Deposited(ring, files), v, ring, files, f);
  }

  lemma PutOneMoreDeposited(data: System, v: IndexView, ring: nat, files: seq<File>, f: File)
    requires FullView(v, ring) && Same(data, Deposited(ring, files)) && CanPlace(data, v, f)
    requires PutFile(data, v, f).Some?
    requires AllTransferable(ring, files)
    ensures Same(PutFile(data, v, f).value, Deposited(ring, files + [f])) && AllTransferable(ring, files + [f])
  {
    PutDeposited(v, ring, files, f);
    TransferableLast(ring, files, f);
  }

  lemma PutWhenIntact(w: World, f: File)
    requires RingRuns.Reachable(w.net) && w.net.dead == 0 && Intact(w) && Possible(w, Put(f))
    ensures Intact(Happen(w, Put(f)))
  {
    FormedView(w.net);
    PutOneMoreDeposited(w.data, View(w.net), w.net.size, w.files, f);
  }

  lemma SnapshotCatalogue(stored: System, ring: nat, lost: nat, files: seq<File>)
    requires 1 <= lost < ring && AsStored(stored, ring, files)
    ensures Catalogue(Without(stored, lost), ring, files)
    ensures Without(stored, lost).stores.Keys == RingNodes(ring) - {lost}
  {
    StoredLayout(stored, ring, files);
    IndexLists(ring, files);
    var s := Without(stored, lost);
    forall n | n in s.stores
      ensures IdsWithin(s.stores[n], |files|)
    {
      IdsInOrder(ring, files, n);
      assert s.stores[n] == StoreOf(ring, files, n);
    }
    forall id: nat | id > |files|
      ensures TableOf(s.index, id).None?
    {
      TableInIndex(ring, files, id);
    }
  }

  lemma NothingGrown(s: System, v: IndexView, ring: nat, lost: nat, files: seq<File>)
    requires Catalogue(s, ring, files) && s.stores.Keys == RingNodes(ring) - {lost}
    ensures Grown(s, s, v, ring, lost, files, |files|)
  {
  }

  lemma GrownSoFar(w: World, stored: System)
    requires 0 < w.net.dead < w.net.size && Backup(w, stored) && Reduced(w, stored)
    ensures GrownSince(w, stored)
  {
    if w.early == |w.files| {
      assert Early(w) == w.files;
      SnapshotCatalogue(stored, w.net.size, w.net.dead, w.files);
      NothingGrown(w.data, View(w.net), w.net.size, w.net.dead, w.files);
    }
  }

  lemma GrowsInReduced(w: World, w': World, stored: System, f: File)
    requires RingRuns.Reachable(w.net) && 0 < w.net.dead < w.net.size && RingRuns.Settled(w.net)
    requires GrownSince(w, stored)
    requires CanPlace(w.data, View(w.net), f) && PutFile(w.data, View(w.net), f) == Some(w'.data)
    requires w'.net == w.net && w.early == w'.early <= |w.files| && w'.files == w.files + [f]
    ensures GrownSince(w', stored)
  {
    BereavedView(w.net);
    GrowsByOne(Without(stored, w.net.dead), w.data, View(w.net), w.net.size, w.net.dead, w.files, w.early, f);
  }

  lemma PutWhenReduced(w: World, stored: System, f: File)
    requires RingRuns.Reachable(w.net) && 0 < w.net.dead < w.net.size
    requires Backup(w, stored) && Reduced(w, stored) && Possible(w, Put(f))
    ensures Reduced(Happen(w, Put(f)), stored) && Early(Happen(w, Put(f))) == Early(w)
  {
    EarlySame(w, Happen(w, Put(f)), f);
    GrownSoFar(w, stored);
    GrowsInReduced(w, Happen(w, Put(f)), stored, f);
  }

  lemma EarlySame(w: World, w': World, f: File)
    requires w'.files == w.files + [f] && w'.early == w.early <= |w.files|
    ensures Early(w') == Early(w)
  {
  }

  // ---------------------------------------------------------------- protocol steps

  /** Nothing stored, nothing reported. */
  lemma NothingReported(data: System, ring: nat, index: nat, n: nat)
    requires ring >= 1 && AsStored(data, ring, []) && 1 <= index <= ring
    ensures AsStored(TakeReports(data, index, n), ring, [])
  {
    StoredLayout(data, ring, []);
    StoredLayout(TakeReports(data, index, n), ring, []);
  }

  /** While the ring forms for the first time there are no files. */
  lemma FormationKeepsNothing(net: Ring.Net, data: System, action: Ring.Action)
    requires net.size >= 1 && Ring.Allowed(net, action) && !action.Die? && AsStored(data, net.size, [])
    ensures AsStored(DataAfter(net, data, action), net.size, [])
  {
    StoredLayout(data, net.size, []);
    match action
    case Begin(i, _) => NothingReported(System(data.stores, []), net.size, i, i);
    case Report(i) => NothingReported(data, net.size, Ring.IndexOf(net, i), i);
    case _ =>
  }

  lemma ProtocolWhenIntact(w: World, action: Ring.Action)
    requires RingRuns.Reachable(w.net) && w.net.dead == 0 && Intact(w)
    requires Ring.Allowed(w.net, action) && !action.Die?
    ensures Intact(Happen(w, Protocol(action)))
  {
    RingRest.ReachableStep(w.net, action);
    if w.files != [] {
      RingRest.RestIsFinal(w.net, action);
    }
    FormationKeepsNothing(w.net, w.data, action);
  }

  /** A first death: what there was becomes the backup. */
  lemma DeathWhenIntact(w: World, a: RingPicture.Progress, i: nat)
    requires w.net.dead == 0 && Intact(w) && Ring.Allowed(w.net, Ring.Die(i)) && a.second == RingPicture.NOTHING
    ensures var w' := Happen(w, Protocol(Ring.Die(i))); Backup(w', w.data) && Bereft(w', a, w.data)
  {
    var w' := Happen(w, Protocol(Ring.Die(i)));
    assert Early(w') == w.files;
  }

  // ---------------------------------------------------------------- after a death

  /** While the ring repairs itself around a lost node, no files move. */
  lemma RepairMovesNothing(a: RingPicture.Progress, net: Ring.Net, data: System, action: Ring.Action)
    requires RingPicture.Depicts(a, net) && 0 < net.dead < net.size && Ring.Allowed(net, action)
    ensures DataAfter(net, data, action) == data && Ring.Apply(net, action).dead == net.dead
    ensures Ring.Apply(net, action).size == net.size
  {
    RingRuns.StepDepicted(a, net, action);
  }

  lemma ProtocolWhenReduced(w: World, a: RingPicture.Progress, stored: System, action: Ring.Action)
    requires RingPicture.Depicts(a, w.net) && RingRuns.Reachable(w.net)
    requires 0 < w.net.dead < w.net.size && Reduced(w, stored) && Ring.Allowed(w.net, action)
    ensures var w' := Happen(w, Protocol(action)); w'.net.dead == w.net.dead && Reduced(w', stored)
  {
    RepairMovesNothing(a, w.net, w.data, action);
    if w.early < |w.files| {
      RingRest.RestIsFinal(w.net, action);
    }
  }

  // ---------------------------------------------------------------- takeover

  /** Taking the lead: the new index reports its own files to itself. */
  lemma LeadTaken(data: System, stored: System, leader: nat)
    requires data == Without(stored, leader + 1)
    ensures TakeReports(System(data.stores, []), leader, leader) == TakenOver(stored, leader, [leader])
  {
    var own := StoreIn(stored.stores, leader);
    assert StoreIn(data.stores, leader) == own;
    SaveNodesLast(Rebuilt([], own), stored.stores, [], leader);
    assert [] + [leader] == [leader];
  }

  /** One more node reports to the new index. */
  lemma ReportTaken(stored: System, leader: nat, order: seq<nat>, n: nat)
    requires n != leader && n != leader + 1
    ensures Same(TakeReports(TakenOver(stored, leader, order), leader, n), TakenOver(stored, leader, order + [n]))
  {
    SaveNodesLast(Rebuilt([], StoreIn(stored.stores, leader)), stored.stores, order, n);
    StoreInWithout(stored.stores, leader + 1, n);
    TakeReportsFrom(stored.stores - {leader + 1}, RebuiltBy(stored, leader, order), leader, n);
  }

  lemma StoreInWithout(stores: Stores, lost: nat, n: nat)
    requires n != lost
    ensures Same(StoreIn(stores - {lost}, n), StoreIn(stores, n))
  {
  }

  lemma TakeReportsFrom(stores: Stores, st: Rebuilt, leader: nat, n: nat)
    requires n != leader
    ensures Same(TakeReports(Installed(stores, leader, st), leader, n),
                 Installed(stores, leader, SaveAll(st, Reports(StoreIn(stores, n), n))))
  {
    var data := Installed(stores, leader, st);
    assert StoreIn(data.stores, n) == StoreIn(stores, n) && StoreIn(data.stores, leader) == st.store;
    assert st == Rebuilt(data.index, st.store);
  }

  lemma HandoverBegins(stored: System, leader: nat, g: RingPicture.Formation, i: nat, memory: seq<nat>)
    requires i == leader ==> leader !in g.begun && g.reporters == []
    ensures Same(Beginning(HandedOver(stored, leader, g), i == leader, i),
                 HandedOver(stored, leader, RingPicture.Beginning(g, leader, i, memory)))
  {
    if i == leader {
      LeadTaken(HandedOver(stored, leader, g), stored, leader);
      assert [leader] + g.reporters == [leader];
    }
  }

  lemma HandoverGoesOn(stored: System, leader: nat, g: RingPicture.Formation, n: nat)
    requires leader in g.begun && n != leader && n != leader + 1
    ensures Same(TakeReports(HandedOver(stored, leader, g), leader, n),
                 HandedOver(stored, leader, g.(reporters := g.reporters + [n])))
  {
    ReportTaken(stored, leader, [leader] + g.reporters, n);
    assert [leader] + g.reporters + [n] == [leader] + (g.reporters + [n]);
  }

  /** Only the leader's own beginning starts the handover. */
  lemma WhoBegins(a: RingPicture.Progress, net: Ring.Net, i: nat, memory: seq<nat>)
    requires RingPicture.Depicts(a, net) && RingRuns.Reachable(net)
    requires net.dead == net.size && Ring.Allowed(net, Ring.Begin(i, memory))
    ensures Ring.Sv(net, i).netSize == Ring.Sv(net, i).id <==> i == net.size - 1
    ensures i == net.size - 1 ==> i !in a.second.begun && a.second.reporters == []
  {
    RingTheorems.UniqueLeader(net, i);
    RingRest.IdKept(net, i);
    assert Ring.At(net, i) == RingPicture.Picture(a, i);
    RingSteps.BeginOk(a, i, memory);
  }

  lemma ReadyReporter(a: RingPicture.Progress, i: nat)
    requires RingSteps.ReportReady(a, i) && a.dead == a.size
    ensures i < a.size - 1 && RingPicture.Leader(a) == a.size - 1 && a.size - 1 in a.second.begun
  {
  }

  lemma DepictedReporter(a: RingPicture.Progress, net: Ring.Net, i: nat)
    requires RingPicture.Depicts(a, net) && Ring.Enabled(net, Ring.Report(i))
    ensures Ring.IndexOf(net, i) == RingPicture.Leader(a) && RingSteps.ReportReady(a, i)
  {
    assert Ring.At(net, i) == RingPicture.Picture(a, i);
    RingSteps.ReportOk(a, i);
  }

  /** Reports go from other survivors to the new leader, once it has begun. */
  lemma WhoReports(a: RingPicture.Progress, net: Ring.Net, i: nat)
    requires RingPicture.Depicts(a, net) && net.dead == net.size && Ring.Enabled(net, Ring.Report(i))
    ensures Ring.IndexOf(net, i) == net.size - 1 && i != net.size - 1 && i != net.size
    ensures net.size - 1 in a.second.begun
  {
    DepictedReporter(a, net, i);
    ReadyReporter(a, i);
  }

  /** What a step means for the handover. */
  predicate Handing(a: RingPicture.Progress, net: Ring.Net, action: Ring.Action) {
    && net.size >= 1 && a.size == a.dead == net.size
    && match action
       case Begin(i, _) =>
         && (Ring.Sv(net, i).netSize == Ring.Sv(net, i).id <==> i == net.size - 1)
         && (i == net.size - 1 ==> i !in a.second.begun && a.second.reporters == [])
       case Report(i) =>
         Ring.IndexOf(net, i) == net.size - 1 && i != net.size - 1 && i != net.size && net.size - 1 in a.second.begun
       case _ => !action.Die?
  }

  lemma WhoActs(a: RingPicture.Progress, net: Ring.Net, action: Ring.Action)
    requires RingPicture.Depicts(a, net) && RingRuns.Reachable(net)
    requires net.dead == net.size && Ring.Allowed(net, action)
    ensures Handing(a, net, action)
  {
    match action
    case Begin(i, memory) => WhoBegins(a, net, i, memory);
    case Report(i) => WhoReports(a, net, i);
    case _ =>
  }

  lemma SecondBegins(a: RingPicture.Progress, i: nat, memory: seq<nat>)
    requires a.size == a.dead && a.size >= 1
    ensures Same(RingPicture.Next(a, Ring.Begin(i, memory)).second,
                 RingPicture.Beginning(a.second, a.size - 1, i, memory))
  {
  }

  lemma SecondReported(a: RingPicture.Progress, i: nat)
    requires a.size == a.dead && a.size >= 1
    ensures Same(RingPicture.Next(a, Ring.Report(i)).second, a.second.(reporters := a.second.reporters + [i]))
  {
  }

  lemma HandoverBeginStep(a: RingPicture.Progress, net: Ring.Net, stored: System, i: nat, memory: seq<nat>)
    requires Handing(a, net, Ring.Begin(i, memory))
    ensures Same(DataAfter(net, HandedOver(stored, net.size - 1, a.second), Ring.Begin(i, memory)),
                 HandedOver(stored, net.size - 1, RingPicture.Next(a, Ring.Begin(i, memory)).second))
  {
    var leader, data := net.size - 1, HandedOver(stored, net.size - 1, a.second);
    var g := RingPicture.Beginning(a.second, leader, i, memory);
    SecondBegins(a, i, memory);
    BeginData(net, data, i, memory, i == leader);
    HandoverBegins(stored, leader, a.second, i, memory);
    SameThrough(DataAfter(net, data, Ring.Begin(i, memory)), Beginning(data, i == leader, i),
                HandedOver(stored, leader, g));
  }

  lemma BeginData(net: Ring.Net, data: System, i: nat, memory: seq<nat>, leads: bool)
    requires leads == (Ring.Sv(net, i).netSize == Ring.Sv(net, i).id)
    ensures Same(DataAfter(net, data, Ring.Begin(i, memory)), Beginning(data, leads, i))
  {
  }

  lemma HandoverReportStep(a: RingPicture.Progress, net: Ring.Net, stored: System, i: nat)
    requires Handing(a, net, Ring.Report(i))
    ensures Same(DataAfter(net, HandedOver(stored, net.size - 1, a.second), Ring.Report(i)),
                 HandedOver(stored, net.size - 1, RingPicture.Next(a, Ring.Report(i)).second))
  {
    SecondReported(a, i);
    HandoverGoesOn(stored, net.size - 1, a.second, i);
    ReportData(net, HandedOver(stored, net.size - 1, a.second), i, net.size - 1);
  }

  lemma ReportData(net: Ring.Net, data: System, i: nat, index: nat)
    requires Ring.IndexOf(net, i) == index
    ensures Same(DataAfter(net, data, Ring.Report(i)), TakeReports(data, index, i))
  {
  }

  lemma HandoverIdleStep(a: RingPicture.Progress, net: Ring.Net, stored: System, action: Ring.Action)
    requires Handing(a, net, action) && !action.Begin? && !action.Report?
    ensures Same(DataAfter(net, HandedOver(stored, net.size - 1, a.second), action),
                 HandedOver(stored, net.size - 1, RingPicture.Next(a, action).second))
  {
  }

  lemma HandoverStep(a: RingPicture.Progress, net: Ring.Net, stored: System, action: Ring.Action)
    requires Handing(a, net, action)
    ensures Same(DataAfter(net, HandedOver(stored, net.size - 1, a.second), action),
                 HandedOver(stored, net.size - 1, RingPicture.Next(a, action).second))
  {
    match action
    case Begin(i, memory) => HandoverBeginStep(a, net, stored, i, memory);
    case Report(i) => HandoverReportStep(a, net, stored, i);
    case _ => HandoverIdleStep(a, net, stored, action);
  }

  /** The data are those of the handover. */
  predicate InHandover(data: System, stored: System, leader: nat, g: RingPicture.Formation) {
    Same(data, HandedOver(stored, leader, g))
  }

  lemma HandoverData(a: RingPicture.Progress, net: Ring.Net, data: System, stored: System, action: Ring.Action)
    requires net.size >= 1 && a.size >= 1
    ensures Handing(a, net, action) && InHandover(data, stored, net.size - 1, a.second) ==>
              InHandover(DataAfter(net, data, action), stored, net.size - 1, RingPicture.Next(a, action).second)
  {
    if Handing(a, net, action) {
      HandoverStep(a, net, stored, action);
    }
  }

  /** What a protocol step changes. */
  ghost predicate Moved(w: World, w': World, action: Ring.Action) {
    && w'.net.size == w.net.size && w'.files == w.files && w'.early == w.early
    && Same(w'.data, DataAfter(w.net, w.data, action))
  }

  lemma BequeathedMoves(w: World, w': World, a: RingPicture.Progress, stored: System, action: Ring.Action)
    requires a.size >= 1
    ensures Bequeathed(w, a, stored) && Handing(a, w.net, action) && Moved(w, w', action) ==>
              Bequeathed(w', RingPicture.Next(a, action), stored)
  {
    if Bequeathed(w, a, stored) && Handing(a, w.net, action) && Moved(w, w', action) {
      HandoverData(a, w.net, w.data, stored, action);
      InHandoverSame(w'.data, DataAfter(w.net, w.data, action), stored, w.net.size - 1,
                     RingPicture.Next(a, action).second);
    }
  }

  lemma InHandoverSame(data: System, data': System, stored: System, leader: nat, g: RingPicture.Formation)
    requires Same(data, data')
    ensures InHandover(data', stored, leader, g) ==> InHandover(data, stored, leader, g)
  {
  }

  lemma ProtocolWhenBequeathed(w: World, w': World, a: RingPicture.Progress, stored: System, action: Ring.Action)
    requires RingPicture.Depicts(a, w.net) && RingRuns.Reachable(w.net)
    requires w.net.dead == w.net.size && Bequeathed(w, a, stored) && Ring.Allowed(w.net, action) && Moved(w, w', action)
    ensures Bequeathed(w', RingPicture.Next(a, action), stored)
  {
    WhoActs(a, w.net, action);
    BequeathedMoves(w, w', a, stored, action);
  }

  // ---------------------------------------------------------------- every step

  lemma BackupKept(w: World, w': World, stored: System)
    requires w'.net.size == w.net.size && Early(w') == Early(w) && w'.early <= |w'.files|
    ensures Backup(w, stored) ==> Backup(w', stored)
  {
  }

  lemma PutSound(w: World, a: RingPicture.Progress, stored: System, f: File)
    requires Sound(w, a, stored) && Possible(w, Put(f))
    ensures Sound(Happen(w, Put(f)), a, stored)
  {
    if w.net.dead == 0 {
      PutWhenIntact(w, f);
    } else {
      PutWhenReduced(w, stored, f);
      BackupKept(w, Happen(w, Put(f)), stored);
    }
  }

  lemma HappenMoves(w: World, action: Ring.Action)
    requires RingRuns.Reachable(w.net) && Ring.Allowed(w.net, action)
    ensures Moved(w, Happen(w, Protocol(action)), action)
  {
    RingRest.ReachableStep(w.net, action);
  }

  lemma BereftStep(w: World, a: RingPicture.Progress, stored: System, action: Ring.Action)
    requires RingPicture.Depicts(a, w.net) && RingRuns.Reachable(w.net) && Ring.Allowed(w.net, action)
    requires 0 < w.net.dead <= w.net.size && Bereft(w, a, stored)
    requires Happen(w, Protocol(action)).net.dead == w.net.dead && Happen(w, Protocol(action)).net.size == w.net.size
    ensures Bereft(Happen(w, Protocol(action)), RingPicture.Next(a, action), stored)
  {
    if w.net.dead < w.net.size {
      ProtocolWhenReduced(w, a, stored, action);
    } else {
      HappenMoves(w, action);
      ProtocolWhenBequeathed(w, Happen(w, Protocol(action)), a, stored, action);
    }
  }

  lemma NextDead(a: RingPicture.Progress, action: Ring.Action)
    requires a.size >= 1
    ensures RingPicture.Next(a, action).dead == if action.Die? then action.node else a.dead
    ensures RingPicture.Next(a, action).size == a.size
  {
  }

  lemma StepDead(a: RingPicture.Progress, net: Ring.Net, action: Ring.Action)
    requires RingPicture.Depicts(a, net) && Ring.Allowed(net, action)
    ensures Ring.Apply(net, action).dead == if action.Die? then action.node else net.dead
    ensures Ring.Apply(net, action).size == net.size
  {
    RingRuns.StepDepicted(a, net, action);
    NextDead(a, action);
  }

  lemma DeathSound(w: World, a: RingPicture.Progress, stored: System, i: nat)
    requires Sound(w, a, stored) && Possible(w, Protocol(Ring.Die(i)))
    ensures Sound(Happen(w, Protocol(Ring.Die(i))), RingPicture.Next(a, Ring.Die(i)), w.data)
  {
    RingRuns.StepDepicted(a, w.net, Ring.Die(i));
    RingRest.ReachableStep(w.net, Ring.Die(i));
    StepDead(a, w.net, Ring.Die(i));
    DeathWhenIntact(w, RingPicture.Next(a, Ring.Die(i)), i);
  }

  lemma BereftSound(w: World, a: RingPicture.Progress, stored: System, action: Ring.Action)
    requires Sound(w, a, stored) && Possible(w, Protocol(action)) && w.net.dead != 0 && !action.Die?
    ensures Sound(Happen(w, Protocol(action)), RingPicture.Next(a, action), stored)
  {
    RingRuns.StepDepicted(a, w.net, action);
    RingRest.ReachableStep(w.net, action);
    StepDead(a, w.net, action);
    BereftStep(w, a, stored, action);
    BackupKept(w, Happen(w, Protocol(action)), stored);
  }

  lemma IntactSound(w: World, a: RingPicture.Progress, stored: System, action: Ring.Action)
    requires Sound(w, a, stored) && Possible(w, Protocol(action)) && w.net.dead == 0 && !action.Die?
    ensures Sound(Happen(w, Protocol(action)), RingPicture.Next(a, action), stored)
  {
    RingRuns.StepDepicted(a, w.net, action);
    RingRest.ReachableStep(w.net, action);
    StepDead(a, w.net, action);
    ProtocolWhenIntact(w, action);
  }

  lemma ProtocolSound(w: World, a: RingPicture.Progress, stored: System, action: Ring.Action) returns (stored': System)
    requires Sound(w, a, stored) && Possible(w, Protocol(action))
    ensures Sound(Happen(w, Protocol(action)), RingPicture.Next(a, action), stored')
  {
    stored' := if action.Die? then w.data else stored;
    if action.Die? {
      DeathSound(w, a, stored, action.node);
    } else if w.net.dead != 0 {
      BereftSound(w, a, stored, action);
    } else {
      IntactSound(w, a, stored, action);
    }
  }

  /** Every history keeps the invariant. */
  lemma {:induction false} HistorySound(w: World, a: RingPicture.Progress, stored: System, events: seq<Event>)
    returns (a': RingPicture.Progress, stored': System)
    requires Sound(w, a, stored) && IsHistory(w, events)
    ensures Sound(AfterAll(w, events), a', stored') && AfterAll(w, events).net.size == w.net.size
    decreases |events|
  {
    if events == [] {
      a', stored' := a, stored;
    } else {
      var a1, stored1 := a, stored;
      match events[0] {
        case Put(f) => PutSound(w, a, stored, f);
        case Protocol(action) =>
          a1 := RingPicture.Next(a, action);
          RingRest.ReachableStep(w.net, action);
          stored1 := ProtocolSound(w, a, stored, action);
      }
      a', stored' := HistorySound(Happen(w, events[0]), a1, stored1, events[1..]);
    }
  }
}
