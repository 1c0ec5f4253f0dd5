/** In every history, every report session stays inside its tables and there is room for every new file, so that the
    code does what the step system says. */
module WorldSessions {
  import opened Types
  import opened Placement
  import opened Storage
  import opened Cluster
  import opened Rebuild
  import opened PutPhase
  import opened Losses
  import opened Failover
  import opened TakeoverGet
  import opened Degraded
  import opened Sessions
  import opened World
  import opened WorldViews
  import opened WorldRuns
  import opened WorldTheorems
  import Ring
  import RingPicture
  import RingRuns
  import RingRest

  // ---------------------------------------------------------------- sessions

  /** A report session: what the index has before it, and the reports it takes. */
  datatype Session = Session(before: Rebuilt, reports: seq<Report>)

  /** The session stays inside its tables. */
  predicate Fits(s: Session) {
    AllFitting(s.before, s.reports)
  }

  /** The same, as a claim that is not taken apart on the way. */
  ghost predicate Proper(s: Session) {
    exists s' {:trigger Fits(s')} :: Fits(s') && Same(s', s)
  }

  lemma ProperFits(s: Session)
    ensures Proper(s) <==> Fits(s)
  {
    assert Fits(s) ==> Same(s, s);
  }

  /** Node n reports its files to the index. */
  function SessionWith(data: System, index: nat, n: nat): Session {
    Session(Rebuilt(data.index, StoreIn(data.stores, index)), Reports(StoreIn(data.stores, n), n))
  }

  /** The session that a step consists of; without reports if it is none. */
  function SessionIn(net: Ring.Net, data: System, action: Ring.Action): Session {
    match action
    case Begin(i, _) =>
      if Ring.Sv(net, i).netSize == Ring.Sv(net, i).id then SessionWith(System(data.stores, []), i, i)
      else Session(Rebuilt([], []), [])
    case Report(i) => SessionWith(data, Ring.IndexOf(net, i), i)
    case _ => Session(Rebuilt([], []), [])
  }

  // ---------------------------------------------------------------- at most a hundred files

  lemma {:induction false} FewFiles(w: World, events: seq<Event>)
    requires IsHistory(w, events) && |w.files| <= MAX_FILES
    ensures |AfterAll(w, events).files| <= MAX_FILES
    decreases |events|
  {
    if events != [] {
      FewFiles(Happen(w, events[0]), events[1..]);
    }
  }

  lemma AttainableFew(ring: nat, w: World)
    requires Attainable(ring, w)
    ensures |w.files| <= MAX_FILES
  {
    var events :| IsHistory(StartWorld(ring), events) && AfterAll(StartWorld(ring), events) == w;
    FewFiles(StartWorld(ring), events);
  }

  // ---------------------------------------------------------------- nobody dead

  lemma NothingToReport(data: System, ring: nat, index: nat, n: nat)
    requires ring >= 1 && AsStored(data, ring, [])
    ensures Fits(SessionWith(data, index, n)) && Fits(SessionWith(System(data.stores, []), index, n))
  {
    StoredLayout(data, ring, []);
    assert StoreIn(data.stores, n) == [];
  }

  lemma FitsWhenIntact(w: World, action: Ring.Action)
    requires RingRuns.Reachable(w.net) && w.net.dead == 0 && Intact(w) && Ring.Allowed(w.net, action)
    ensures Fits(SessionIn(w.net, w.data, action))
  {
    if w.files != [] {
      RingRest.RestIsFinal(w.net, action);
    } else {
      match action
      case Begin(i, _) => NothingToReport(w.data, w.net.size, i, i);
      case Report(i) => NothingToReport(w.data, w.net.size, Ring.IndexOf(w.net, i), i);
      case _ =>
    }
  }

  // ---------------------------------------------------------------- a node lost

  /** While the ring repairs itself around a lost node, there are no sessions. */
  lemma FitsWhenReduced(a: RingPicture.Progress, net: Ring.Net, data: System, action: Ring.Action)
    requires RingPicture.Depicts(a, net) && 0 < net.dead < net.size && Ring.Allowed(net, action)
    ensures Fits(SessionIn(net, data, action))
  {
    RingRuns.StepDepicted(a, net, action);
  }

  // ---------------------------------------------------------------- the index lost

  /** These files were stored in a full ring. */
  ghost predicate Legacy(stored: System, ring: nat, files: seq<File>)
    requires ring >= 1
  {
    exists s :: Same(s, stored) && AsStored(s, ring, files)
  }

  /** The new index has taken over what was stored, as far as it has come. */
  ghost predicate Taken(data: System, stored: System, ring: nat, g: RingPicture.Formation)
    requires ring >= 1
  {
    exists d :: Same(d, data) && InHandover(d, stored, ring - 1, g)
  }

  ghost predicate Succession(data: System, ring: nat, g: RingPicture.Formation)
    requires ring >= 1
  {
    exists stored, files :: Legacy(stored, ring, files) && Taken(data, stored, ring, g) && |files| <= MAX_FILES
  }

  lemma StoredAt(stored: System, ring: nat, files: seq<File>, n: nat)
    requires ring >= 1 && AsStored(stored, ring, files) && 1 <= n <= ring
    ensures Same(StoreIn(stored.stores, n), StoreOf(ring, files, n))
  {
    StoredLayout(stored, ring, files);
  }

  // The leader begins.

  lemma OwnStore(stored: System, ring: nat, files: seq<File>)
    requires ring >= 2 && AsStored(stored, ring, files)
    ensures Same(StoreIn(Without(stored, ring).stores, ring - 1), StoreOf(ring, files, ring - 1))
  {
    StoredAt(stored, ring, files, ring - 1);
    StoreInWithout(stored.stores, ring, ring - 1);
    SameThrough(StoreIn(Without(stored, ring).stores, ring - 1), StoreIn(stored.stores, ring - 1),
                StoreOf(ring, files, ring - 1));
  }

  lemma OwnStoreKept(stored: System, ring: nat, files: seq<File>)
    requires ring >= 2
    ensures Legacy(stored, ring, files) ==>
              Same(StoreIn(Without(stored, ring).stores, ring - 1), StoreOf(ring, files, ring - 1))
  {
    if Legacy(stored, ring, files) {
      var s :| Same(s, stored) && AsStored(s, ring, files);
      OwnStore(s, ring, files);
    }
  }

  lemma OwnFits(stores: Stores, ring: nat, files: seq<File>)
    requires ring >= 4 && |files| <= MAX_FILES
    ensures Same(StoreIn(stores, ring - 1), StoreOf(ring, files, ring - 1)) ==>
              Proper(SessionWith(System(stores, []), ring - 1, ring - 1))
  {
    if Same(StoreIn(stores, ring - 1), StoreOf(ring, files, ring - 1)) {
      OwnSessionFits(Rebuilt([], StoreIn(stores, ring - 1)), ring, files, ring - 1);
      ProperFits(SessionWith(System(stores, []), ring - 1, ring - 1));
    }
  }

  /** The new index takes stock of its own files. */
  lemma LeadFits(stored: System, ring: nat, files: seq<File>)
    requires ring >= 4 && |files| <= MAX_FILES
    ensures Legacy(stored, ring, files) ==>
              Proper(SessionWith(System(Without(stored, ring).stores, []), ring - 1, ring - 1))
  {
    OwnStoreKept(stored, ring, files);
    OwnFits(Without(stored, ring).stores, ring, files);
  }

  lemma NotBegun(data: System, stored: System, ring: nat, g: RingPicture.Formation)
    requires ring >= 1 && ring - 1 !in g.begun
    ensures Taken(data, stored, ring, g) ==> Same(data, Without(stored, ring))
  {
  }

  lemma OwnFitsSame(data: System, data': System, leader: nat)
    ensures Same(data, data') && Proper(SessionWith(System(data'.stores, []), leader, leader)) ==>
              Proper(SessionWith(System(data.stores, []), leader, leader))
  {
  }

  lemma LeaderFits(data: System, stored: System, ring: nat, files: seq<File>, g: RingPicture.Formation)
    requires ring >= 4 && |files| <= MAX_FILES && ring - 1 !in g.begun
    ensures Legacy(stored, ring, files) && Taken(data, stored, ring, g) ==>
              Proper(SessionWith(System(data.stores, []), ring - 1, ring - 1))
  {
    LeadFits(stored, ring, files);
    NotBegun(data, stored, ring, g);
    OwnFitsSame(data, Without(stored, ring), ring - 1);
  }

  lemma HandoverLeadFits(data: System, ring: nat, g: RingPicture.Formation)
    requires ring >= 4 && ring - 1 !in g.begun
    ensures Succession(data, ring, g) ==> Proper(SessionWith(System(data.stores, []), ring - 1, ring - 1))
  {
    if Succession(data, ring, g) {
      var stored, files :| Legacy(stored, ring, files) && Taken(data, stored, ring, g) && |files| <= MAX_FILES;
      LeaderFits(data, stored, ring, files, g);
    }
  }

  // Others report.

  /** These nodes have reported: the leader, and others. */
  ghost predicate ReportedSoFar(ring: nat, order: seq<nat>) {
    Distinct(order) && forall k :: 0 <= k < |order| ==> 1 <= order[k] < ring
  }

  lemma InstalledStores(stores: Stores, st: Rebuilt, leader: nat, n: nat)
    requires n != leader
    ensures var data := Installed(stores, leader, st);
            Rebuilt(data.index, StoreIn(data.stores, leader)) == st && StoreIn(data.stores, n) == StoreIn(stores, n)
  {
  }

  lemma StoredSessionFits(stored: System, ring: nat, files: seq<File>, order: seq<nat>, n: nat)
    requires ring >= 4 && AsStored(stored, ring, files) && |files| <= MAX_FILES
    requires ReportedSoFar(ring, order) && 1 <= n < ring - 1
    ensures Proper(SessionWith(TakenOver(stored, ring - 1, order), ring - 1, n))
  {
    RebuiltSoFar(stored, ring, files, order);
    StoredAt(stored, ring, files, n);
    StoreInWithout(stored.stores, ring, n);
    InstalledStores(stored.stores - {ring}, RebuiltBy(stored, ring - 1, order), ring - 1, n);
    SessionFits(RebuiltBy(stored, ring - 1, order), ring, files, order, n);
    ProperFits(SessionWith(TakenOver(stored, ring - 1, order), ring - 1, n));
  }

  /** The new index takes the reports of one more node. */
  lemma ReportSessionFits(stored: System, ring: nat, files: seq<File>, order: seq<nat>, n: nat)
    requires ring >= 4 && |files| <= MAX_FILES && ReportedSoFar(ring, order) && 1 <= n < ring - 1
    ensures Legacy(stored, ring, files) ==> Proper(SessionWith(TakenOver(stored, ring - 1, order), ring - 1, n))
  {
    if Legacy(stored, ring, files) {
      var s :| Same(s, stored) && AsStored(s, ring, files);
      StoredSessionFits(s, ring, files, order, n);
    }
  }

  lemma LeaderAndReporters(ring: nat, g: RingPicture.Formation)
    requires ring >= 1 && RingPicture.FormationOk(g, ring - 1)
    ensures ReportedSoFar(ring, [ring - 1] + g.reporters)
  {
    var order := [ring - 1] + g.reporters;
    assert forall k :: 1 <= k < |order| ==> order[k] == g.reporters[k - 1];
  }

  lemma Begun(data: System, stored: System, ring: nat, g: RingPicture.Formation)
    requires ring >= 1 && ring - 1 in g.begun
    ensures Taken(data, stored, ring, g) ==> Same(data, TakenOver(stored, ring - 1, [ring - 1] + g.reporters))
  {
  }

  lemma ReportsFitSame(data: System, data': System, leader: nat, n: nat)
    ensures Same(data, data') && Proper(SessionWith(data', leader, n)) ==> Proper(SessionWith(data, leader, n))
  {
  }

  lemma ReporterFits(data: System, stored: System, ring: nat, files: seq<File>, g: RingPicture.Formation, n: nat)
    requires ring >= 4 && |files| <= MAX_FILES && RingPicture.FormationOk(g, ring - 1) && ring - 1 in g.begun
    requires 1 <= n < ring - 1
    ensures Legacy(stored, ring, files) && Taken(data, stored, ring, g) ==> Proper(SessionWith(data, ring - 1, n))
  {
    LeaderAndReporters(ring, g);
    ReportSessionFits(stored, ring, files, [ring - 1] + g.reporters, n);
    Begun(data, stored, ring, g);
    ReportsFitSame(data, TakenOver(stored, ring - 1, [ring - 1] + g.reporters), ring - 1, n);
  }

  lemma HandoverReportFits(data: System, ring: nat, g: RingPicture.Formation, n: nat)
    requires ring >= 4 && ring - 1 in g.begun && 1 <= n < ring - 1
    ensures RingPicture.FormationOk(g, ring - 1) && Succession(data, ring, g) ==> Proper(SessionWith(data, ring - 1, n))
  {
    if RingPicture.FormationOk(g, ring - 1) && Succession(data, ring, g) {
      var stored, files :| Legacy(stored, ring, files) && Taken(data, stored, ring, g) && |files| <= MAX_FILES;
      ReporterFits(data, stored, ring, files, g, n);
    }
  }

  // Either.

  lemma BeginFitsIf(net: Ring.Net, data: System, i: nat, memory: seq<nat>, leader: nat)
    requires Ring.Sv(net, i).netSize == Ring.Sv(net, i).id ==> i == leader
    ensures Proper(SessionWith(System(data.stores, []), leader, leader)) ==>
              Proper(SessionIn(net, data, Ring.Begin(i, memory)))
    ensures i != leader ==> Proper(SessionIn(net, data, Ring.Begin(i, memory)))
  {
    ProperFits(SessionIn(net, data, Ring.Begin(i, memory)));
  }

  lemma BeginFits(a: RingPicture.Progress, net: Ring.Net, data: System, i: nat, memory: seq<nat>)
    requires net.size >= 4 && Handing(a, net, Ring.Begin(i, memory))
    ensures Succession(data, net.size, a.second) ==> Proper(SessionIn(net, data, Ring.Begin(i, memory)))
  {
    BeginFitsIf(net, data, i, memory, net.size - 1);
    if i == net.size - 1 {
      HandoverLeadFits(data, net.size, a.second);
    }
  }

  lemma ReportSession(net: Ring.Net, data: System, i: nat)
    requires net.size >= 1 && Ring.IndexOf(net, i) == net.size - 1
    ensures Same(SessionIn(net, data, Ring.Report(i)), SessionWith(data, net.size - 1, i))
  {
  }

  lemma ProperSame(s: Session, s': Session)
    ensures Same(s, s') && Proper(s') ==> Proper(s)
  {
  }

  lemma SessionSameFits(s: Session, data: System, ring: nat, g: RingPicture.Formation, n: nat)
    requires ring >= 4 && ring - 1 in g.begun && 1 <= n < ring - 1
    ensures Same(s, SessionWith(data, ring - 1, n)) ==>
              RingPicture.FormationOk(g, ring - 1) && Succession(data, ring, g) ==> Proper(s)
  {
    HandoverReportFits(data, ring, g, n);
    ProperSame(s, SessionWith(data, ring - 1, n));
  }

  lemma ReportStepFits(net: Ring.Net, data: System, g: RingPicture.Formation, i: nat)
    requires net.size >= 4 && Ring.IndexOf(net, i) == net.size - 1 && 1 <= i < net.size - 1 && net.size - 1 in g.begun
    ensures RingPicture.FormationOk(g, net.size - 1) && Succession(data, net.size, g) ==>
              Proper(SessionIn(net, data, Ring.Report(i)))
  {
    ReportSession(net, data, i);
    SessionSameFits(SessionIn(net, data, Ring.Report(i)), data, net.size, g, i);
  }

  lemma IdleStepFits(net: Ring.Net, data: System, action: Ring.Action)
    requires !action.Begin? && !action.Report?
    ensures Proper(SessionIn(net, data, action))
  {
    ProperFits(SessionIn(net, data, action));
  }

  lemma SuccessionFits(a: RingPicture.Progress, net: Ring.Net, data: System, action: Ring.Action)
    requires net.size >= 4 && Handing(a, net, action) && On(net.size, action.node)
    requires RingPicture.FormationOk(a.second, net.size - 1)
    ensures Succession(data, net.size, a.second) ==> Proper(SessionIn(net, data, action))
  {
    match action
    case Begin(i, memory) => BeginFits(a, net, data, i, memory);
    case Report(i) => ReportStepFits(net, data, a.second, i);
    case _ => IdleStepFits(net, data, action);
  }

  lemma SecondFormation(a: RingPicture.Progress, net: Ring.Net)
    requires RingPicture.Depicts(a, net) && net.dead == net.size
    ensures net.size >= 4 && RingPicture.FormationOk(a.second, net.size - 1)
  {
  }

  lemma FitsAfterSuccession(a: RingPicture.Progress, net: Ring.Net, data: System, action: Ring.Action)
    requires RingPicture.Depicts(a, net) && RingRuns.Reachable(net) && net.dead == net.size >= 1
    requires Ring.Allowed(net, action)
    ensures Succession(data, net.size, a.second) ==> Proper(SessionIn(net, data, action))
  {
    SecondFormation(a, net);
    WhoActs(a, net, action);
    SuccessionFits(a, net, data, action);
  }

  // There is a succession.

  lemma StoredBefore(w: World, stored: System)
    requires w.net.size >= 1 && w.early == |w.files|
    ensures Backup(w, stored) ==> Legacy(stored, w.net.size, w.files)
  {
    BackupIsStored(w, stored);
  }

  lemma HandoverOf(w: World, a: RingPicture.Progress, stored: System)
    requires w.net.size >= 1
    ensures Bequeathed(w, a, stored) ==> Taken(w.data, stored, w.net.size, a.second)
  {
  }

  lemma Succeeded(w: World, a: RingPicture.Progress, stored: System)
    requires w.net.size >= 1 && |w.files| <= MAX_FILES && w.early == |w.files|
    ensures Backup(w, stored) && Bequeathed(w, a, stored) ==> Succession(w.data, w.net.size, a.second)
  {
    StoredBefore(w, stored);
    HandoverOf(w, a, stored);
  }

  lemma SucceededSoundly(w: World, a: RingPicture.Progress, stored: System)
    requires Sound(w, a, stored) && w.net.dead == w.net.size >= 1 && |w.files| <= MAX_FILES
    ensures Succession(w.data, w.net.size, a.second)
  {
    Succeeded(w, a, stored);
  }

  lemma FitsWhenBequeathed(w: World, a: RingPicture.Progress, stored: System, action: Ring.Action)
    requires Sound(w, a, stored) && w.net.dead == w.net.size >= 1 && |w.files| <= MAX_FILES
    requires Ring.Allowed(w.net, action)
    ensures Proper(SessionIn(w.net, w.data, action))
  {
    SucceededSoundly(w, a, stored);
    FitsAfterSuccession(a, w.net, w.data, action);
  }

  // ---------------------------------------------------------------- any history

  /** In every history every report session, also that of a new index with itself, stays inside its tables: each
      report has the size its table has and is written inside it, and the file table has room for each container that
      is opened. */
  lemma EverySessionFits(ring: nat, w: World, action: Ring.Action)
    requires ring >= 2 && Attainable(ring, w) && Ring.Allowed(w.net, action)
    ensures Fits(SessionIn(w.net, w.data, action))
  {
    var a, stored := AttainableSound(ring, w);
    AttainableFew(ring, w);
    if w.net.dead == 0 {
      FitsWhenIntact(w, action);
    } else if w.net.dead < w.net.size {
      FitsWhenReduced(a, w.net, w.data, action);
    } else {
      FitsWhenBequeathed(w, a, stored, action);
      ProperFits(SessionIn(w.net, w.data, action));
    }
  }

  // ---------------------------------------------------------------- room for new files

  /** The index's peer table covers the positions it uses, and no node has more containers than there are files. */
  ghost predicate HasRoom(data: System, v: IndexView, files: seq<File>) {
    Sized(v) && v.netSize >= 1 && v.me in data.stores && forall n :: n in data.stores ==> |data.stores[n]| <= |files|
  }

  lemma RoomWhenIntact(data: System, v: IndexView, ring: nat, files: seq<File>)
    requires FullView(v, ring) && Same(data, Deposited(ring, files))
    ensures HasRoom(data, v, files)
  {
    StoredLayout(data, ring, files);
    forall n | n in data.stores
      ensures |data.stores[n]| <= |files|
    {
      IdsInOrder(ring, files, n);
    }
  }

  lemma RoomWhenReduced(data: System, v: IndexView, ring: nat, lost: nat, files: seq<File>)
    requires LossView(v, ring, lost) && Catalogue(data, ring, files)
    ensures HasRoom(data, v, files)
  {
    PlacedOnSpots(v, ring, lost, File("", []));
    forall n | n in data.stores
      ensures |data.stores[n]| <= |files|
    {
      assert IdsWithin(data.stores[n], |files|);
    }
  }

  /** Whenever a client may store a file, there is room for it: with fewer than 100 files, no node's file table is full,
      and the placement loops stay inside the peer table. */
  lemma EveryNodeHasRoom(ring: nat, w: World)
    requires ring >= 2 && Attainable(ring, w) && RingRuns.Settled(w.net) && w.net.size >= 1 && w.net.dead != w.net.size
    ensures HasRoom(w.data, View(w.net), w.files)
  {
    var a, stored := AttainableSound(ring, w);
    if w.net.dead == 0 {
      FormedView(w.net);
      RoomWhenIntact(w.data, View(w.net), w.net.size, w.files);
    } else {
      GrownSoFar(w, stored);
      BereavedView(w.net);
      RoomWhenReduced(w.data, View(w.net), w.net.size, w.net.dead, w.files);
    }
  }
}
