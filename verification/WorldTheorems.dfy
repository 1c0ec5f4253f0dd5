/** The store keeps its promise: in every history, whatever was stored can be fetched. */
module WorldTheorems {
  import opened Types
  import opened Split
  import opened Placement
  import opened Storage
  import opened Cluster
  import opened PutPhase
  import opened Losses
  import opened Takeover
  import opened Heritage
  import opened TakeoverGet
  import opened Degraded
  import opened World
  import opened WorldViews
  import opened WorldRuns
  import Ring
  import RingPicture
  import RingRuns
  import RingTheorems
  import RingOutcomes
  import RingRest

  /** A state that some history of a ring of this size leads to. */
  ghost predicate Attainable(ring: nat, w: World) {
    exists events :: IsHistory(StartWorld(ring), events) && AfterAll(StartWorld(ring), events) == w
  }

  lemma AttainableSound(ring: nat, w: World) returns (a: RingPicture.Progress, stored: System)
    requires ring >= 2 && Attainable(ring, w)
    ensures Sound(w, a, stored) && w.net.size == ring
  {
    var events :| IsHistory(StartWorld(ring), events) && AfterAll(StartWorld(ring), events) == w;
    StartSound(ring);
    a, stored := HistorySound(StartWorld(ring), RingPicture.Start(ring), Empty(ring), events);
  }

  // ---------------------------------------------------------------- getting files back

  /** In how many fragments file g was stored. */
  function Count(w: World, g: nat): nat
    requires g < |w.files| && w.net.size >= 1
  {
    FragmentCount(|w.files[g].data|, if g < w.early then w.net.size else View(w.net).netSize)
  }

  /** The one case in which a file does not come back: it was stored in four fragments on four nodes, and node 3 has
      died since. */
  predicate Stuck(w: World, g: nat)
    requires g < |w.files| && w.net.size >= 1
  {
    g < w.early && Unlucky(w.net.size, w.net.dead, Count(w, g))
  }

  /** A live node that is not the index. */
  predicate CanAsk(w: World, n: nat)
    requires w.net.size >= 1
  {
    1 <= n <= w.net.size && n != w.net.dead && n != RingTheorems.LeaderOf(w.net)
  }

  /** The file that answers to a name: the first one stored under it; but after a takeover the first split one, if
      there is one. */
  function Answering(w: World, name: string): (g: Option<nat>)
    ensures g.Some? ==> g.value < |w.files| && HasName(w.files[g.value], name)
  {
    if w.net.dead == w.net.size then Inheritor(w.net.size, w.files, name) else FirstNamed(w.files, name)
  }

  lemma SameStem(ring: nat, files: seq<File>, name: string, name': string)
    requires Stem(name) == Stem(name')
    ensures FirstNamed(files, name) == FirstNamed(files, name')
    ensures Inheritor(ring, files, name) == Inheritor(ring, files, name')
  {
    assert forall f: File :: HasName(f, name) == HasName(f, name');
  }

  lemma GetByStem(s: System, v: IndexView, requester: nat, name: string, name': string, order: seq<nat>)
    requires Stem(name) == Stem(name')
    ensures GetFile(s, v, requester, name, order) == GetFile(s, v, requester, name', order)
  {
  }

  /** A name that no file has is not found in a store that lists the files. */
  lemma UnknownGet(s: System, v: IndexView, files: seq<File>, requester: nat, name: string, order: seq<nat>)
    requires v.me in s.stores && Lists(s.stores[v.me], files) && FirstNamed(files, name).None?
    ensures GetFile(s, v, requester, name, order) == Rejected
  {
    UnlistedName(s.stores[v.me], files, name);
  }

  // ---------------------------------------------------------------- nobody dead

  lemma GetWhenIntact(w: World, g: nat, requester: nat, order: seq<nat>)
    requires RingRuns.Reachable(w.net) && RingRuns.Settled(w.net) && w.net.dead == 0 && Intact(w)
    requires Leads(w.files, g) && CanAsk(w, requester) && IsPermutation(order, Count(w, g))
    ensures GetFile(w.data, View(w.net), requester, w.files[g].name, order) == Returned(w.files[g].data)
  {
    FormedView(w.net);
    GetFromFullRing(w.data, View(w.net), w.net.size, w.files, g, requester, order);
  }

  lemma UnknownWhenIntact(w: World, requester: nat, name: string, order: seq<nat>)
    requires RingRuns.Reachable(w.net) && RingRuns.Settled(w.net) && w.net.dead == 0 && Intact(w)
    requires FirstNamed(w.files, name).None?
    ensures GetFile(w.data, View(w.net), requester, name, order) == Rejected
  {
    FormedView(w.net);
    StoredLayout(w.data, w.net.size, w.files);
    IndexLists(w.net.size, w.files);
    UnknownGet(w.data, View(w.net), w.files, requester, name, order);
  }

  // ---------------------------------------------------------------- a node lost

  lemma LeadsEarly(w: World, g: nat)
    requires Leads(w.files, g) && g < w.early <= |w.files|
    ensures Leads(Early(w), g) && Early(w)[g] == w.files[g]
  {
    assert forall j :: 0 <= j <= g ==> Early(w)[j] == w.files[j];
  }

  lemma GetEarly(w: World, stored: System, g: nat, requester: nat, order: seq<nat>)
    requires RingRuns.Reachable(w.net) && RingRuns.Settled(w.net) && 0 < w.net.dead < w.net.size
    requires Backup(w, stored) && Leads(w.files, g) && GrownSince(w, stored)
    requires g < w.early && CanAsk(w, requester) && IsPermutation(order, Count(w, g))
    ensures GetFile(w.data, View(w.net), requester, w.files[g].name, order) ==
            if Stuck(w, g) then Waiting else Returned(w.files[g].data)
  {
    BereavedView(w.net);
    LeadsEarly(w, g);
    GetAfterLoss(stored, View(w.net), w.net.size, w.net.dead, Early(w), g, requester, order);
    assert Undisturbed(Without(stored, w.net.dead), w.data, View(w.net), w.files[g].name);
  }

  lemma GetLate(w: World, stored: System, g: nat, requester: nat, order: seq<nat>)
    requires 0 < w.net.dead < w.net.size && w.early <= g && Leads(w.files, g) && GrownSince(w, stored)
    requires CanAsk(w, requester) && IsPermutation(order, Count(w, g))
    ensures GetFile(w.data, View(w.net), requester, w.files[g].name, order) == Returned(w.files[g].data)
  {
    assert Comes(w.data, View(w.net), w.net.size, w.net.dead, w.files[g]);
    assert ValidGet(w.net.size, w.net.dead, requester, order, Count(w, g));
  }

  lemma UnknownWhenReduced(w: World, stored: System, requester: nat, name: string, order: seq<nat>)
    requires RingRuns.Reachable(w.net) && RingRuns.Settled(w.net) && 0 < w.net.dead < w.net.size
    requires GrownSince(w, stored) && FirstNamed(w.files, name).None?
    ensures GetFile(w.data, View(w.net), requester, name, order) == Rejected
  {
    BereavedView(w.net);
    UnknownGet(w.data, View(w.net), w.files, requester, name, order);
  }

  // ---------------------------------------------------------------- the index lost

  lemma RestReporters(a: RingPicture.Progress, net: Ring.Net)
    requires RingPicture.Depicts(a, net) && RingRuns.Settled(net) && net.dead == net.size
    ensures net.size - 1 in a.second.begun && a.second.reporters == Ring.At(net, net.size - 1).reporters
  {
    var leader: nat := net.size - 1;
    assert On(net.size, leader) && Ring.At(net, leader) == RingPicture.Picture(a, leader);
    assert Ring.Sv(net, leader).mode == Ring.Idle && Ring.Sv(net, leader).deathCount == 1;
  }

  lemma HandoverEnds(data: System, stored: System, leader: nat, g: RingPicture.Formation)
    requires leader in g.begun
    ensures InHandover(data, stored, leader, g) ==> Same(data, TakenOver(stored, leader, [leader] + g.reporters))
  {
  }

  /** At rest, the handover is complete. */
  lemma HandoverDone(w: World, a: RingPicture.Progress, stored: System)
    requires RingPicture.Depicts(a, w.net) && RingRuns.Settled(w.net) && w.net.dead == w.net.size
    ensures Bequeathed(w, a, stored) ==>
              Same(w.data, TakenOver(stored, w.net.size - 1, Reporters(w.net)))
  {
    RestReporters(a, w.net);
    HandoverEnds(w.data, stored, w.net.size - 1, a.second);
  }

  lemma BackupIsStored(w: World, stored: System)
    requires w.net.size >= 1 && w.early == |w.files|
    ensures Backup(w, stored) ==> AsStored(stored, w.net.size, w.files) && AllTransferable(w.net.size, w.files)
  {
    assert Early(w) == w.files;
  }

  /** The data are those of a completed takeover. */
  ghost predicate Restored(data: System, v: IndexView, ring: nat, files: seq<File>) {
    exists stored, survivors ::
      AllReported(stored, v, ring, files, survivors) && Same(data, TakenOver(stored, v.me, survivors))
  }

  lemma GetRestored(data: System, v: IndexView, ring: nat, files: seq<File>, g: nat, requester: nat, order: seq<nat>)
    requires Restored(data, v, ring, files) && TakeoverGet.Inherited(ring, files, g)
    requires 1 <= requester < ring - 1 && IsPermutation(order, FragmentCount(|files[g].data|, ring))
    ensures GetFile(data, v, requester, files[g].name, order) == Returned(files[g].data)
  {
    var stored, survivors :|
      AllReported(stored, v, ring, files, survivors) && Same(data, TakenOver(stored, v.me, survivors));
    GetAfterTakeover(stored, v, ring, files, survivors, g, requester, order);
  }

  lemma UnknownRestored(data: System, v: IndexView, ring: nat, files: seq<File>, requester: nat, name: string,
                        order: seq<nat>)
    requires Restored(data, v, ring, files) && Inheritor(ring, files, name).None?
    ensures GetFile(data, v, requester, name, order) == Rejected
  {
    var stored, survivors :|
      AllReported(stored, v, ring, files, survivors) && Same(data, TakenOver(stored, v.me, survivors));
    UnknownAfterTakeover(stored, v, ring, files, survivors, name, requester, order);
  }

  lemma ReportedIf(stored: System, survivors: seq<nat>, v: IndexView, ring: nat, files: seq<File>)
    requires ring >= 1
    ensures && TakeoverView(v, ring) && AllSurvivors(ring, survivors) && AsStored(stored, ring, files)
            && AllTransferable(ring, files)
            ==> AllReported(stored, v, ring, files, survivors) && v.me == ring - 1
  {
  }

  lemma RestoredIf(data: System, stored: System, survivors: seq<nat>, v: IndexView, ring: nat, files: seq<File>)
    ensures AllReported(stored, v, ring, files, survivors) && Same(data, TakenOver(stored, v.me, survivors)) ==>
              Restored(data, v, ring, files)
  {
  }

  lemma RestedRing(net: Ring.Net)
    requires RingRuns.Reachable(net) && RingRuns.Settled(net) && net.dead == net.size
    ensures TakeoverView(View(net), net.size) && AllSurvivors(net.size, Reporters(net))
  {
    InheritedView(net);
    AllHaveReported(net);
  }

  lemma RestIsRestored(w: World, stored: System)
    requires w.net.size >= 1 && TakeoverView(View(w.net), w.net.size) && AllSurvivors(w.net.size, Reporters(w.net))
    requires w.early == |w.files|
    ensures Backup(w, stored) && Same(w.data, TakenOver(stored, w.net.size - 1, Reporters(w.net))) ==>
              Restored(w.data, View(w.net), w.net.size, w.files)
  {
    BackupIsStored(w, stored);
    ReportedIf(stored, Reporters(w.net), View(w.net), w.net.size, w.files);
    RestoredIf(w.data, stored, Reporters(w.net), View(w.net), w.net.size, w.files);
  }

  lemma RestoredWorld(w: World, a: RingPicture.Progress, stored: System)
    requires Sound(w, a, stored) && RingRuns.Settled(w.net) && w.net.dead == w.net.size && w.net.size >= 1
    ensures Restored(w.data, View(w.net), w.net.size, w.files)
  {
    HandoverDone(w, a, stored);
    RestedRing(w.net);
    RestIsRestored(w, stored);
  }

  // ---------------------------------------------------------------- any history

  /** A get of a name that file g answers to. */
  lemma GetAnswered(w: World, a: RingPicture.Progress, stored: System, g: nat, requester: nat, order: seq<nat>)
    requires Sound(w, a, stored) && RingRuns.Settled(w.net) && w.net.size >= 1
    requires g < |w.files| && Answering(w, w.files[g].name) == Some(g)
    requires CanAsk(w, requester) && IsPermutation(order, Count(w, g))
    ensures GetFile(w.data, View(w.net), requester, w.files[g].name, order) ==
            if Stuck(w, g) then Waiting else Returned(w.files[g].data)
  {
    if w.net.dead == 0 {
      GetWhenIntact(w, g, requester, order);
    } else if w.net.dead == w.net.size {
      RestoredWorld(w, a, stored);
      GetRestored(w.data, View(w.net), w.net.size, w.files, g, requester, order);
    } else {
      GrownSoFar(w, stored);
      if g < w.early {
        GetEarly(w, stored, g, requester, order);
      } else {
        GetLate(w, stored, g, requester, order);
      }
    }
  }

  lemma GetUnanswered(w: World, a: RingPicture.Progress, stored: System, name: string, requester: nat, order: seq<nat>)
    requires Sound(w, a, stored) && RingRuns.Settled(w.net) && w.net.size >= 1 && Answering(w, name).None?
    ensures GetFile(w.data, View(w.net), requester, name, order) == Rejected
  {
    if w.net.dead == 0 {
      UnknownWhenIntact(w, requester, name, order);
    } else if w.net.dead == w.net.size {
      RestoredWorld(w, a, stored);
      UnknownRestored(w.data, View(w.net), w.net.size, w.files, requester, name, order);
    } else {
      GrownSoFar(w, stored);
      UnknownWhenReduced(w, stored, requester, name, order);
    }
  }

  /** What a get of this name returns. */
  function Answer(w: World, name: string): GetResult
    requires w.net.size >= 1
  {
    match Answering(w, name)
    case None => Rejected
    case Some(g) => if Stuck(w, g) then Waiting else Returned(w.files[g].data)
  }

  /** The fragments of the file that answers to this name arrive in this order. */
  ghost predicate Arrives(w: World, name: string, order: seq<nat>)
    requires w.net.size >= 1
  {
    Answering(w, name).Some? ==> IsPermutation(order, Count(w, Answering(w, name).value))
  }

  /** The main theorem. Take any ring of at least two nodes and any history of it: the ring forms, clients store
      files, at most one node dies, the index or another one, the ring repairs itself and elects a new index
      if need be, and clients may go on storing as long as the first index lives; all of it in any
      interleaving. Whenever the ring is at rest, a get of any name through any live node other than the
      index reaches the index, and returns exactly the bytes of the file that answers to the name, in whatever
      order the fragments arrive; a name that no file has is rejected; and no read ever leaves a table. The only
      exception is a file stored in four fragments on four nodes of which the third has died since: the client
      waits for it forever. */
  lemma EveryFileComesBack(ring: nat, w: World, name: string, requester: nat, order: seq<nat>)
    requires 2 <= ring <= 255 && Attainable(ring, w) && RingRuns.Settled(w.net) && w.net.size >= 1
    requires CanAsk(w, requester) && Arrives(w, name, order)
    ensures Ring.IndexOf(w.net, requester) == RingTheorems.LeaderOf(w.net)
    ensures GetFile(w.data, View(w.net), requester, name, order) == Answer(w, name)
  {
    var a, stored := AttainableSound(ring, w);
    RingOutcomes.EverybodyDialsLeader(w.net, requester);
    match Answering(w, name) {
      case None => GetUnanswered(w, a, stored, name, requester, order);
      case Some(g) =>
        SameStem(w.net.size, w.files, name, w.files[g].name);
        GetAnswered(w, a, stored, g, requester, order);
        GetByStem(w.data, View(w.net), requester, name, w.files[g].name, order);
    }
  }

  // ---------------------------------------------------------------- storing files

  /** Storing f now succeeds exactly if every transfer completes. */
  ghost predicate PutsIff(data: System, v: IndexView, f: File) {
    v.netSize >= 1 && CanPlace(data, v, f) && (PutFile(data, v, f).Some? <==> Transferable(v.netSize, f))
  }

  lemma PutsWhenIntact(data: System, v: IndexView, ring: nat, files: seq<File>, f: File)
    requires FullView(v, ring) && Same(data, Deposited(ring, files))
    ensures PutsIff(data, v, f)
  {
    PutDeposited(v, ring, files, f);
  }

  lemma PutsWhenReduced(w: World, stored: System, f: File)
    requires RingRuns.Reachable(w.net) && RingRuns.Settled(w.net) && 0 < w.net.dead < w.net.size
    requires GrownSince(w, stored) && w.early <= |w.files|
    ensures PutsIff(w.data, View(w.net), f)
  {
    BereavedView(w.net);
    GrowsByOne(Without(stored, w.net.dead), w.data, View(w.net), w.net.size, w.net.dead, w.files, w.early, f);
  }

  lemma PutsNow(ring: nat, w: World, f: File)
    requires ring >= 2 && Attainable(ring, w) && RingRuns.Settled(w.net) && w.net.size >= 1 && w.net.dead != w.net.size
    ensures PutsIff(w.data, View(w.net), f)
  {
    var a, stored := AttainableSound(ring, w);
    if w.net.dead == 0 {
      FormedView(w.net);
      PutsWhenIntact(w.data, View(w.net), w.net.size, w.files, f);
    } else {
      GrownSoFar(w, stored);
      PutsWhenReduced(w, stored, f);
    }
  }

  lemma PossibleIf(w: World, f: File)
    requires RingRuns.Settled(w.net) && w.net.size >= 1 && w.net.dead != w.net.size && PutsIff(w.data, View(w.net), f)
    ensures Possible(w, Put(f)) <==>
            |w.files| < 100 && |f.data| < 0x8000_0000 && Transferable(View(w.net).netSize, f)
  {
  }

  /** Whenever the ring is at rest with its first index alive, a client can store any file of less than 2 GB all of
      whose transfers complete, as long as there are fewer than 100 files, and no other: the index always finds room
      for the fragments on live, reachable nodes. */
  lemma EveryFileCanBeStored(ring: nat, w: World, f: File)
    requires 2 <= ring <= 255 && Attainable(ring, w) && RingRuns.Settled(w.net) && w.net.size >= 1
    requires w.net.dead != w.net.size
    ensures View(w.net).netSize >= 1
    ensures Possible(w, Put(f)) <==>
            |w.files| < 100 && |f.data| < 0x8000_0000 && Transferable(View(w.net).netSize, f)
  {
    PutsNow(ring, w, f);
    PossibleIf(w, f);
  }

  // ---------------------------------------------------------------- coming to rest

  function Steps(actions: seq<Ring.Action>): (events: seq<Event>)
    ensures |events| == |actions|
  {
    seq(|actions|, k requires 0 <= k < |actions| => Protocol(actions[k]))
  }

  lemma {:induction false} RunIsHistory(w: World, actions: seq<Ring.Action>)
    requires RingRuns.Reachable(w.net) && Ring.IsRun(w.net, actions)
    ensures IsHistory(w, Steps(actions))
    ensures var w' := AfterAll(w, Steps(actions));
            w'.net == Ring.After(w.net, actions) && w'.files == w.files && w'.early == w.early
    decreases |actions|
  {
    if actions != [] {
      RingRest.ReachableStep(w.net, actions[0]);
      RunIsHistory(Happen(w, Protocol(actions[0])), actions[1..]);
      assert Steps(actions)[1..] == Steps(actions[1..]);
    }
  }

  /** From every state that a history leads to, the ring can come to rest with nobody else dying, within 7N - 3
      steps; so the promise of EveryFileComesBack never stays out of reach. */
  lemma EveryHistoryComesToRest(ring: nat, w: World) returns (events: seq<Event>)
    requires ring >= 2 && Attainable(ring, w)
    ensures IsHistory(w, events) && |events| <= 7 * w.net.size - 3
    ensures var w' := AfterAll(w, events);
            RingRuns.Settled(w'.net) && w'.net.dead == w.net.dead && w'.files == w.files && w'.early == w.early
  {
    var a, stored := AttainableSound(ring, w);
    var actions := RingRest.ComesToRest(w.net);
    RunIsHistory(w, actions);
    events := Steps(actions);
  }

  // ---------------------------------------------------------------- the exception happens

  lemma {:induction false} HistoriesAppend(w: World, before: seq<Event>, after: seq<Event>)
    requires IsHistory(w, before) && IsHistory(AfterAll(w, before), after)
    ensures IsHistory(w, before + after) && Same(AfterAll(w, before + after), AfterAll(AfterAll(w, before), after))
    decreases |before|
  {
    if before == [] {
      assert before + after == after;
    } else {
      HistoriesAppend(Happen(w, before[0]), before[1..], after);
      HeadTail(before, after);
    }
  }

  lemma AttainableThen(ring: nat, w: World, events: seq<Event>)
    requires Attainable(ring, w) && IsHistory(w, events)
    ensures Attainable(ring, AfterAll(w, events))
  {
    var before :| IsHistory(StartWorld(ring), before) && AfterAll(StartWorld(ring), before) == w;
    HistoriesAppend(StartWorld(ring), before, events);
  }

  lemma AttainableNext(ring: nat, w: World, e: Event)
    requires Attainable(ring, w) && Possible(w, e)
    ensures Attainable(ring, Happen(w, e))
  {
    var events := [e];
    assert events[1..] == [];
    assert IsHistory(Happen(w, e), []) && AfterAll(Happen(w, e), []) == Happen(w, e);
    AttainableThen(ring, w, events);
  }

  lemma AttainableStart(ring: nat)
    ensures Attainable(ring, StartWorld(ring))
  {
    var none: seq<Event> := [];
    assert IsHistory(StartWorld(ring), none) && AfterAll(StartWorld(ring), none) == StartWorld(ring);
  }

  /** The ring comes to rest. */
  lemma Rested(ring: nat, w: World) returns (w': World)
    requires ring >= 2 && Attainable(ring, w)
    ensures Attainable(ring, w') && RingRuns.Settled(w'.net) && w'.net.size == ring
    ensures w'.net.dead == w.net.dead && w'.files == w.files && w'.early == w.early
  {
    var events := EveryHistoryComesToRest(ring, w);
    AttainableThen(ring, w, events);
    w' := AfterAll(w, events);
    var a, stored := AttainableSound(ring, w');
  }

  /** A file of 101 bytes, which four nodes share in four fragments. */
  function Sample(): (f: File)
    ensures |f.data| == 101
  {
    File("x", seq(101, _ => 0))
  }

  lemma SampleTransferable()
    ensures Transferable(4, Sample()) && FragmentCount(101, 4) == 4
  {
    var pieces := Pieces(4, Sample());
    forall i: nat | i < |pieces|
      ensures |pieces[i]| % 4096 != 0
    {
      PieceIsFragment(4, Sample(), i);
    }
  }

  lemma FormedStart(ring: nat) returns (w: World)
    requires ring >= 2
    ensures Attainable(ring, w) && RingRuns.Settled(w.net) && w.net.size == ring && w.net.dead == 0
    ensures w.files == [] && w.early == 0 && View(w.net).netSize == ring
  {
    AttainableStart(ring);
    w := Rested(ring, StartWorld(ring));
    var a, stored := AttainableSound(ring, w);
    FormedView(w.net);
  }

  lemma OneStored(ring: nat, f: File) returns (w: World)
    requires 2 <= ring <= 255 && Storable(f) && Transferable(ring, f)
    ensures Attainable(ring, w) && RingRuns.Settled(w.net) && w.net.size == ring && w.net.dead == 0
    ensures w.files == [f] && w.early == 1 && View(w.net).netSize == ring
  {
    var w1 := FormedStart(ring);
    EveryFileCanBeStored(ring, w1, f);
    w := StoredNext(ring, w1, f);
  }

  lemma StoredNext(ring: nat, w: World, f: File) returns (w': World)
    requires Attainable(ring, w) && Possible(w, Put(f)) && w.net.dead == 0
    ensures Attainable(ring, w') && w'.net == w.net && w'.files == w.files + [f] && w'.early == w.early + 1
  {
    AttainableNext(ring, w, Put(f));
    w' := Happen(w, Put(f));
  }

  lemma OneStoredThenDeath(ring: nat, f: File, dead: nat) returns (w: World)
    requires 3 <= ring <= 255 && Storable(f) && Transferable(ring, f) && 1 <= dead < ring
    ensures Attainable(ring, w) && RingRuns.Settled(w.net) && w.net.size == ring && w.net.dead == dead
    ensures w.files == [f] && w.early == 1
  {
    var w1 := OneStored(ring, f);
    var w2 := DeathNext(ring, w1, dead);
    w := Rested(ring, w2);
  }

  lemma DeathNext(ring: nat, w: World, dead: nat) returns (w': World)
    requires Attainable(ring, w) && RingRuns.Settled(w.net) && w.net.dead == 0
    requires w.net.size == ring && 3 <= ring && 1 <= dead < ring
    ensures Attainable(ring, w') && w'.net.dead == dead && w'.files == w.files && w'.early == w.early
  {
    var death := Protocol(Ring.Die(dead));
    assert Possible(w, death);
    AttainableNext(ring, w, death);
    w' := Happen(w, death);
  }

  /** The exception of EveryFileComesBack does occur: four nodes, one file in four fragments, and node 3 dies. */
  lemma StuckHappens() returns (w: World)
    ensures Attainable(4, w) && RingRuns.Settled(w.net) && w.net.size == 4 && |w.files| == 1 && Stuck(w, 0)
  {
    SampleTransferable();
    w := OneStoredThenDeath(4, Sample(), 3);
  }
}
