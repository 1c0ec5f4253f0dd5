/** The system after a takeover, and the fetch that follows. */
module TakeoverGet {
  import opened Types
  import opened Split
  import opened Placement
  import opened Selection
  import opened Storage
  import opened Cluster
  import opened PutPhase
  import opened Losses
  import opened Failover
  import opened Takeover
  import opened Heritage

  /** The leader has rebuilt the index from its own reports and those of the others, in this order. */
  function RebuiltBy(s: System, leader: nat, order: seq<nat>): Rebuilt {
    SaveNodes(Rebuilt([], StoreIn(s.stores, leader)), s.stores, order)
  }

  /** The system once the leader has taken over from the node after it, which is dead. */
  function TakenOver(s: System, leader: nat, order: seq<nat>): System {
    Installed(s.stores - {leader + 1}, leader, RebuiltBy(s, leader, order))
  }

  /** These stores, with what the leader has rebuilt. */
  function Installed(stores: Stores, leader: nat, st: Rebuilt): System {
    System(stores[leader := st.store], st.index)
  }

  lemma SurvivorsUntouched(s: System, ring: nat, files: seq<File>, order: seq<nat>)
    requires ring >= 4 && AsStored(s, ring, files) && AllSurvivors(ring, order)
    ensures Untouched(s.stores, ring, files, order)
    ensures StoreIn(s.stores, ring - 1) == StoreOf(ring, files, ring - 1)
    ensures forall k :: 0 <= k < |order| ==> 1 <= order[k] < ring
  {
    StoredLayout(s, ring, files);
    SurvivorsOnRing(ring, order);
  }

  /** Once all survivors have reported, the leader's store is the complete inheritance. */
  lemma RebuiltInherits(s: System, ring: nat, files: seq<File>, order: seq<nat>)
    requires ring >= 4 && AsStored(s, ring, files) && AllSurvivors(ring, order)
    ensures Same(RebuiltBy(s, ring - 1, order).store, Inheritance(ring, files, |files|))
  {
    SurvivorsUntouched(s, ring, files, order);
    RebuiltStoreIs(s.stores, ring, files, order);
    assert 1 in order;
  }

  // ---------------------------------------------------------------- what the new index knows

  /** What the rebuilt store and index have to say about file g. */
  ghost predicate KnownRebuilt(st: Rebuilt, ring: nat, files: seq<File>, g: nat, table: seq<Pointer>)
    requires g < |files|
  {
    && TableOf(st.index, g + 1) == Some(table) && |table| == 2 * FragmentCount(|files[g].data|, ring)
    && FindsFile(LookupName(st.store, Stem(files[g].name)), ring, files, Some(g))
  }

  lemma KnownAsRebuilt(s: System, leader: nat, order: seq<nat>, v: IndexView, ring: nat, files: seq<File>, g: nat,
                       table: seq<Pointer>)
    requires ring >= 1 && g < |files| && v.me == leader
    ensures KnownRebuilt(RebuiltBy(s, leader, order), ring, files, g, table) ==>
              Known(TakenOver(s, leader, order), v, ring, files, g, table)
  {
  }

  /** File g is the one the new index finds under its name. */
  predicate Inherited(ring: nat, files: seq<File>, g: nat) {
    g < |files| && Inheritor(ring, files, files[g].name) == Some(g)
  }

  lemma NameFound(store: FileStore, ring: nat, files: seq<File>, name: string)
    requires ring >= 4
    ensures Same(store, Inheritance(ring, files, |files|)) ==>
              FindsFile(LookupName(store, Stem(name)), ring, files, Inheritor(ring, files, name))
  {
    InheritedName(ring, files, name);
  }

  lemma RebuiltKnows(s: System, ring: nat, files: seq<File>, order: seq<nat>, g: nat)
    requires ring >= 4 && AsStored(s, ring, files) && AllSurvivors(ring, order) && Inherited(ring, files, g)
    ensures KnownRebuilt(RebuiltBy(s, ring - 1, order), ring, files, g, SurvivorTable(ring, RingTable(ring, files[g])))
  {
    RebuiltInherits(s, ring, files, order);
    NameFound(RebuiltBy(s, ring - 1, order).store, ring, files, files[g].name);
    RebuiltTable(s, ring, files, order, g);
  }

  lemma RebuiltTable(s: System, ring: nat, files: seq<File>, order: seq<nat>, g: nat)
    requires ring >= 4 && AsStored(s, ring, files) && AllSurvivors(ring, order) && g < |files|
    ensures TableOf(RebuiltBy(s, ring - 1, order).index, g + 1) == Some(SurvivorTable(ring, RingTable(ring, files[g])))
  {
    SurvivorsUntouched(s, ring, files, order);
    SaveNodesTable(s.stores, StoreIn(s.stores, ring - 1), ring, files, order, g + 1);
    TableRebuilt(ring, files, order, g + 1);
  }

  // ---------------------------------------------------------------- what the survivors hold

  /** A store that has, of file g, what the leader had. */
  ghost predicate Complements(store: FileStore, ring: nat, files: seq<File>, g: nat)
    requires ring >= 1
  {
    var own := Lookup(StoreOf(ring, files, ring - 1), g + 1);
    own.Some? ==> Lookup(store, g + 1) == own
  }

  lemma InheritanceComplements(store: FileStore, ring: nat, files: seq<File>, g: nat)
    requires ring >= 4
    ensures Same(store, Inheritance(ring, files, |files|)) ==> Complements(store, ring, files, g)
  {
    LookupConcat(StoreOf(ring, files, ring - 1), Wholes(ring, Upto(files, |files|)), g + 1);
  }

  lemma RetainsWith(s: System, ring: nat, files: seq<File>, g: nat, store: FileStore)
    requires ring >= 2 && AsStored(s, ring, files) && Complements(store, ring, files, g)
    ensures var stores := (s.stores - {ring})[ring - 1 := store];
            stores.Keys == RingNodes(ring - 1) && Retains(stores, ring, files, g)
  {
    StoredLayout(s, ring, files);
    var stores := (s.stores - {ring})[ring - 1 := store];
    assert stores.Keys == RingNodes(ring - 1);
  }

  lemma TakenOverRetains(s: System, ring: nat, files: seq<File>, order: seq<nat>, g: nat)
    requires ring >= 4 && AsStored(s, ring, files) && AllSurvivors(ring, order)
    ensures TakenOver(s, ring - 1, order).stores.Keys == RingNodes(ring - 1)
    ensures Retains(TakenOver(s, ring - 1, order).stores, ring, files, g)
  {
    RebuiltInherits(s, ring, files, order);
    InheritanceComplements(RebuiltBy(s, ring - 1, order).store, ring, files, g);
    RetainsWith(s, ring, files, g, RebuiltBy(s, ring - 1, order).store);
  }

  /** Every fragment is asked from a survivor that has it. */
  lemma TakenOverServed(s: System, v: IndexView, ring: nat, files: seq<File>, order: seq<nat>, g: nat, requester: nat)
    requires TakeoverView(v, ring) && AsStored(s, ring, files) && AllSurvivors(ring, order)
    requires g < |files| && Transferable(ring, files[g])
    ensures var table := SurvivorTable(ring, RingTable(ring, files[g]));
            && TableInBounds(v, table)
            && Served(TakenOver(s, ring - 1, order), v, requester, g + 1, files[g].data, Select(v, table))
  {
    var s', f := TakenOver(s, ring - 1, order), files[g];
    var table := SurvivorTable(ring, RingTable(ring, f));
    TakenOverRetains(s, ring, files, order, g);
    SurvivorTableInBounds(v, ring, f);
    forall i: nat | i < |Pieces(ring, f)|
      ensures GoodChoice(s'.stores, v, ring, Select(v, table), i)
    {
      ChoicesAfterTakeover(s'.stores, v, ring, f, i);
    }
    AllServed(s', v, ring, files, g, requester, Select(v, table));
  }

  /** The index knows the file and asks every fragment of it from somebody who has it. */
  ghost predicate Fetchable(s: System, v: IndexView, ring: nat, files: seq<File>, g: nat, requester: nat) {
    exists table :: FetchableBy(s, v, ring, files, g, requester, table)
  }

  ghost predicate FetchableBy(s: System, v: IndexView, ring: nat, files: seq<File>, g: nat, requester: nat,
                              table: seq<Pointer>)
  {
    && ring >= 1 && g < |files| && TableInBounds(v, table)
    && Known(s, v, ring, files, g, table) && Served(s, v, requester, g + 1, files[g].data, Select(v, table))
  }

  lemma FetchableIf(s: System, order: seq<nat>, v: IndexView, ring: nat, files: seq<File>, g: nat,
                    requester: nat, table: seq<Pointer>)
    requires g < |files|
    ensures && KnownRebuilt(RebuiltBy(s, v.me, order), ring, files, g, table) && ring >= 1 && TableInBounds(v, table)
            && Served(TakenOver(s, v.me, order), v, requester, g + 1, files[g].data, Select(v, table))
            ==> Fetchable(TakenOver(s, v.me, order), v, ring, files, g, requester)
  {
    if && KnownRebuilt(RebuiltBy(s, v.me, order), ring, files, g, table) && ring >= 1 && TableInBounds(v, table)
       && Served(TakenOver(s, v.me, order), v, requester, g + 1, files[g].data, Select(v, table)) {
      KnownAsRebuilt(s, v.me, order, v, ring, files, g, table);
      assert FetchableBy(TakenOver(s, v.me, order), v, ring, files, g, requester, table);
    }
  }

  lemma FetchableReturns(s: System, v: IndexView, ring: nat, files: seq<File>, g: nat, requester: nat, order: seq<nat>)
    requires g < |files| && Fetchable(s, v, ring, files, g, requester)
    requires 1 <= requester <= |v.ports| && Dials(v, requester) && requester != v.me
    requires IsPermutation(order, FragmentCount(|files[g].data|, ring))
    ensures GetFile(s, v, requester, files[g].name, order) == Returned(files[g].data)
  {
    var table :| FetchableBy(s, v, ring, files, g, requester, table);
    ServedReturns(s, v, ring, files, g, requester, table, order);
  }

  /** Everything was stored, the index has died, and everybody has reported. */
  ghost predicate AllReported(s: System, v: IndexView, ring: nat, files: seq<File>, order: seq<nat>) {
    && TakeoverView(v, ring) && AsStored(s, ring, files) && AllTransferable(ring, files)
    && AllSurvivors(ring, order)
  }

  lemma ReportedKnows(s: System, v: IndexView, ring: nat, files: seq<File>, order: seq<nat>, g: nat,
                      table: seq<Pointer>)
    requires g < |files|
    ensures && AllReported(s, v, ring, files, order) && Inherited(ring, files, g)
            && table == SurvivorTable(ring, RingTable(ring, files[g])) ==>
              KnownRebuilt(RebuiltBy(s, v.me, order), ring, files, g, table)
  {
    if AllReported(s, v, ring, files, order) && Inherited(ring, files, g) {
      RebuiltKnows(s, ring, files, order, g);
    }
  }

  lemma ReportedServes(s: System, v: IndexView, ring: nat, files: seq<File>, order: seq<nat>, g: nat, requester: nat,
                      table: seq<Pointer>)
    requires g < |files|
    ensures AllReported(s, v, ring, files, order) && table == SurvivorTable(ring, RingTable(ring, files[g])) ==>
              && TableInBounds(v, table)
              && Served(TakenOver(s, v.me, order), v, requester, g + 1, files[g].data, Select(v, table))
  {
    if AllReported(s, v, ring, files, order) {
      TakenOverServed(s, v, ring, files, order, g, requester);
    }
  }

  lemma TakenOverFetchable(s: System, v: IndexView, ring: nat, files: seq<File>, order: seq<nat>, g: nat,
                           requester: nat, table: seq<Pointer>)
    requires ring >= 1 && g < |files|
    ensures && AllReported(s, v, ring, files, order) && Inherited(ring, files, g)
            && table == SurvivorTable(ring, RingTable(ring, files[g])) ==>
              Fetchable(TakenOver(s, v.me, order), v, ring, files, g, requester)
  {
    ReportedKnows(s, v, ring, files, order, g, table);
    ReportedServes(s, v, ring, files, order, g, requester, table);
    FetchableIf(s, order, v, ring, files, g, requester, table);
  }

  lemma ReporterDials(s: System, v: IndexView, ring: nat, files: seq<File>, order: seq<nat>, requester: nat)
    requires AllReported(s, v, ring, files, order) && 1 <= requester < ring - 1
    ensures requester <= |v.ports| && Dials(v, requester) && requester != v.me
  {
    SurvivorDials(v, ring, requester);
  }

  /** Put, lose the index, get: for every ring of at least four nodes and every list of files, once node N - 1 has
      taken over and the survivors have reported in any order, a get of any name through any surviving
      non-index node returns exactly the bytes of the file the new index finds under it, in any arrival order. Names
      are no keys: the new index finds the first split file of the name if there is one, where the old one
      found the first file. */
  lemma GetAfterTakeover(s: System, v: IndexView, ring: nat, files: seq<File>, order: seq<nat>, g: nat,
                         requester: nat, arrival: seq<nat>)
    requires AllReported(s, v, ring, files, order) && Inherited(ring, files, g) && 1 <= requester < ring - 1
    requires IsPermutation(arrival, FragmentCount(|files[g].data|, ring))
    ensures GetFile(TakenOver(s, v.me, order), v, requester, files[g].name, arrival) == Returned(files[g].data)
  {
    ReporterDials(s, v, ring, files, order, requester);
    TakenOverFetchable(s, v, ring, files, order, g, requester, SurvivorTable(ring, RingTable(ring, files[g])));
    FetchableReturns(TakenOver(s, v.me, order), v, ring, files, g, requester, arrival);
  }

  lemma UnknownRebuilt(s: System, ring: nat, files: seq<File>, order: seq<nat>, name: string)
    requires ring >= 4 && AsStored(s, ring, files) && AllSurvivors(ring, order) && Inheritor(ring, files, name).None?
    ensures LookupName(RebuiltBy(s, ring - 1, order).store, Stem(name)).None?
  {
    RebuiltInherits(s, ring, files, order);
    NameFound(RebuiltBy(s, ring - 1, order).store, ring, files, name);
  }

  lemma ReportedUnknown(s: System, v: IndexView, ring: nat, files: seq<File>, order: seq<nat>, name: string)
    requires Inheritor(ring, files, name).None?
    ensures AllReported(s, v, ring, files, order) ==> LookupName(RebuiltBy(s, v.me, order).store, Stem(name)).None?
  {
    if AllReported(s, v, ring, files, order) {
      UnknownRebuilt(s, ring, files, order, name);
    }
  }

  lemma UnknownTakenOver(s: System, order: seq<nat>, v: IndexView, name: string, requester: nat, arrival: seq<nat>)
    ensures LookupName(RebuiltBy(s, v.me, order).store, Stem(name)).None? ==>
              GetFile(TakenOver(s, v.me, order), v, requester, name, arrival) == Rejected
  {
  }

  /** A get of a name nobody has used finds nothing. */
  lemma UnknownAfterTakeover(s: System, v: IndexView, ring: nat, files: seq<File>, order: seq<nat>, name: string,
                             requester: nat, arrival: seq<nat>)
    requires AllReported(s, v, ring, files, order) && Inheritor(ring, files, name).None?
    ensures GetFile(TakenOver(s, v.me, order), v, requester, name, arrival) == Rejected
  {
    ReportedUnknown(s, v, ring, files, order, name);
    UnknownTakenOver(s, order, v, name, requester, arrival);
  }

  lemma SecondInherits(ring: nat, files: seq<File>)
    requires |files| == 2 && HasName(files[1], files[0].name) && !IsSplit(ring, files[0]) && IsSplit(ring, files[1])
    ensures Leads(files, 0) && Inheritor(ring, files, files[0].name) == Some(1)
  {
  }

  /** A takeover can change the answer to a get: of two files of one name, the first unsplit and the second split, the
      old index finds the first and the new one the second. */
  lemma {:induction false} TakeoverChangesAnswer(s: System, ring: nat, files: seq<File>, order: seq<nat>)
    requires ring >= 4 && AsStored(s, ring, files) && AllSurvivors(ring, order)
    requires |files| == 2 && HasName(files[1], files[0].name) && !IsSplit(ring, files[0]) && IsSplit(ring, files[1])
    ensures FindsFile(LookupName(StoreOf(ring, files, ring), Stem(files[0].name)), ring, files, Some(0))
    ensures FindsFile(LookupName(RebuiltBy(s, ring - 1, order).store, Stem(files[0].name)), ring, files, Some(1))
  {
    SecondInherits(ring, files);
    IndexFindsName(ring, files, 0);
    RebuiltInherits(s, ring, files, order);
    NameFound(RebuiltBy(s, ring - 1, order).store, ring, files, files[0].name);
  }

  // ---------------------------------------------------------------- ids

  predicate UniqueIds(store: FileStore) {
    forall i, j :: 0 <= i < j < |store| ==> store[i].fileId != store[j].fileId
  }

  /** The store has a container for each of the ids 1..k, and for no other. */
  ghost predicate HasExactly(store: FileStore, k: nat) {
    forall id: nat :: Has(store, id) <==> 1 <= id <= k
  }

  /** The ids in the store are 1..k, each once. */
  ghost predicate IdsUpTo(store: FileStore, k: nat) {
    |store| == k && UniqueIds(store) && HasExactly(store, k)
  }

  function Ids(store: FileStore): (ids: seq<nat>)
    ensures |ids| == |store| && forall k :: 0 <= k < |store| ==> ids[k] == store[k].fileId
  {
    seq(|store|, k requires 0 <= k < |store| => store[k].fileId)
  }

  lemma FoundUnderOwnId(store: FileStore, k: nat)
    requires k < |store|
    ensures Has(store, store[k].fileId)
  {
  }

  /** A store with unique ids that has exactly 1..k has k containers. */
  lemma IdsAreExactly(store: FileStore, k: nat)
    requires UniqueIds(store) && HasExactly(store, k)
    ensures IdsUpTo(store, k)
  {
    var ids := Ids(store);
    forall i | 0 <= i < |store|
      ensures 1 <= ids[i] <= k
    {
      FoundUnderOwnId(store, i);
    }
    var shifted: seq<nat> := seq(|ids|, i requires 0 <= i < |ids| => ids[i] - 1);
    PigeonHole(shifted, k);
    forall id: nat | 1 <= id <= k
      ensures id in ids
    {
      assert Has(store, id);
      assert ids[Find(store, id).value] == id;
    }
    if |store| < k {
      var missing := SomeoneMissing(ids, k);
    }
  }

  lemma UniqueAppend(store: FileStore, c: Container)
    requires UniqueIds(store) && Lookup(store, c.fileId).None?
    ensures UniqueIds(store + [c])
  {
  }

  lemma {:induction false} StoreUnique(ring: nat, files: seq<File>, n: nat)
    requires ring >= 1
    ensures UniqueIds(StoreOf(ring, files, n))
  {
    if files != [] {
      var front, last := files[..|files| - 1], files[|files| - 1];
      FrontLast(files);
      StoreUnique(ring, front, n);
      StoreUniqueStep(ring, front, last, n);
    }
  }

  lemma StoreUniqueStep(ring: nat, front: seq<File>, last: File, n: nat)
    requires ring >= 1 && UniqueIds(StoreOf(ring, front, n))
    ensures UniqueIds(StoreOf(ring, front + [last], n))
  {
    var store, gain := StoreOf(ring, front, n), Gain(ring, last, |front| + 1, n);
    StoreOfLast(ring, front, last, n);
    GainIds(ring, last, |front| + 1, n);
    LookupOutside(ring, front, n, |front| + 1);
    if gain == [] {
      assert store + gain == store;
    } else {
      assert gain == [gain[0]];
      UniqueAppend(store, gain[0]);
    }
  }

  lemma OwnUnique(ring: nat, files: seq<File>)
    requires ring >= 4
    ensures UniqueIds(Inheritance(ring, files, 0))
  {
    StoreUnique(ring, files, ring - 1);
    NothingInherited(ring, files);
  }

  lemma UniqueStep(store: FileStore, store': FileStore, c: Container)
    ensures Same(store', store + [c]) && !Has(store, c.fileId) && UniqueIds(store) ==> UniqueIds(store')
  {
    if UniqueIds(store) && !Has(store, c.fileId) {
      UniqueAppend(store, c);
    }
  }

  lemma OneMoreUnique(ring: nat, files: seq<File>, p: nat)
    requires ring >= 4 && p < |files|
    ensures UniqueIds(Inheritance(ring, files, p)) ==> UniqueIds(Inheritance(ring, files, p + 1))
  {
    InheritanceGrows(ring, files, p);
    LookupInherited(ring, files, p, p + 1);
    UniqueStep(Inheritance(ring, files, p), Inheritance(ring, files, p + 1), Fresh(MetaFor(files[p], p + 1, ring)));
  }

  /** The leader's own containers and the first p unsplit files have different ids. */
  lemma {:induction false} InheritanceUnique(ring: nat, files: seq<File>, p: nat)
    requires ring >= 4 && p <= |files|
    ensures UniqueIds(Inheritance(ring, files, p))
  {
    if p == 0 {
      OwnUnique(ring, files);
    } else {
      InheritanceUnique(ring, files, p - 1);
      OneMoreUnique(ring, files, p - 1);
    }
  }

  lemma InheritanceIds(ring: nat, files: seq<File>)
    requires ring >= 4
    ensures IdsUpTo(Inheritance(ring, files, |files|), |files|)
  {
    var store := Inheritance(ring, files, |files|);
    InheritanceUnique(ring, files, |files|);
    forall id: nat
      ensures Has(store, id) <==> 1 <= id <= |files|
    {
      LookupInherited(ring, files, |files|, id);
    }
    IdsAreExactly(store, |files|);
  }

  lemma NextIdFresh(store: FileStore, k: nat)
    requires IdsUpTo(store, k)
    ensures NotIn(store, k + 1)
  {
    assert !Has(store, k + 1);
  }

  /** Id allocation survives the takeover: the new index knows ids 1..|files|, each once, so the next id it would
      give out, its container count plus one, is fresh. */
  lemma NextIdFreshAfterTakeover(s: System, ring: nat, files: seq<File>, order: seq<nat>)
    requires ring >= 4 && AsStored(s, ring, files) && AllSurvivors(ring, order)
    ensures var store := RebuiltBy(s, ring - 1, order).store;
            IdsUpTo(store, |files|) && NotIn(store, |store| + 1)
  {
    RebuiltInherits(s, ring, files, order);
    InheritanceIds(ring, files);
    NextIdFresh(RebuiltBy(s, ring - 1, order).store, |files|);
  }
}
