/** Storing files in a ring that has already lost a node: they go to the survivors, they come back, and
    nothing stored before is disturbed. */
module Degraded {
  import opened Types
  import opened Split
  import opened Placement
  import opened Selection
  import opened Storage
  import opened Layout
  import opened Cluster
  import opened PutPhase
  import opened Losses

  // ---------------------------------------------------------------- where new files go

  /** A node the index can send to and ask from. */
  predicate Usable(v: IndexView, n: nat) {
    Alive(v, n) && Dials(v, n)
  }

  /** A list of distinct usable nodes over which the index spreads its files. */
  ghost predicate Targets(v: IndexView, live: seq<nat>) {
    && v.netSize == |live| >= 1 && Distinct(live) && (|live| >= 2 || v.me !in live)
    && forall j :: 0 <= j < |live| ==> Usable(v, live[j])
  }

  /** After one loss: all survivors; but a widowed index leaves itself out. */
  function Spots(v: IndexView, ring: nat, lost: nat): seq<nat> {
    if lost + 1 == ring then FirstNodes(v.netSize) else Live(v)
  }

  lemma UsableIff(v: IndexView, ring: nat, lost: nat, n: nat)
    requires LossView(v, ring, lost) && 1 <= n <= ring
    ensures Usable(v, n) <==> n != lost
    ensures n <= |v.ports| && (IsValidNode(v, n) <==> n != lost)
  {
    AliveIff(v, ring, lost, n);
  }

  lemma {:induction false} LiveCount(v: IndexView, ring: nat, lost: nat, k: nat)
    requires LossView(v, ring, lost) && k <= ring
    ensures |LiveUpTo(v, k)| == if k < lost then k else k - 1
  {
    if k > 0 {
      LiveCount(v, ring, lost, k - 1);
      UsableIff(v, ring, lost, k);
    }
  }

  lemma SpotsUsable(v: IndexView, ring: nat, lost: nat)
    requires LossView(v, ring, lost)
    ensures Targets(v, Spots(v, ring, lost))
    ensures forall n :: n in Spots(v, ring, lost) ==> 1 <= n <= ring && n != lost
  {
    var live := Spots(v, ring, lost);
    LiveCount(v, ring, lost, ring);
    forall j | 0 <= j < |live|
      ensures 1 <= live[j] <= ring && live[j] != lost && Usable(v, live[j])
    {
      assert live[j] in live;
      UsableIff(v, ring, lost, live[j]);
    }
  }

  /** The table the index computes after a loss is the closed form over the nodes it spreads files over. */
  lemma PlacedOnSpots(v: IndexView, ring: nat, lost: nat, f: File)
    requires LossView(v, ring, lost)
    ensures Sized(v) && |Spots(v, ring, lost)| == v.netSize >= 1
    ensures TableFor(v, f) == FileTable(Spots(v, ring, lost), PiecesFor(f, v.netSize))
  {
    var count := FragmentCount(|f.data|, v.netSize);
    SpotsUsable(v, ring, lost);
    SizesOfFragments(f.data, count);
    if lost + 1 == ring {
      forall i: nat | i < v.netSize
        ensures v.ports[i] != 0
      {
        UsableIff(v, ring, lost, i + 1);
      }
      PlacementWidowed(v, FragmentSizes(|f.data|, count));
    } else {
      PlacementOverAnyLiveSet(v, FragmentSizes(|f.data|, count));
    }
  }

  // ---------------------------------------------------------------- one more file

  lemma TargetsReachable(stores: Stores, v: IndexView, live: seq<nat>, pieces: seq<seq<byte>>)
    requires Targets(v, live) && 1 <= |pieces| <= |live| && forall n :: n in live ==> n in stores
    ensures AllReachable(stores, v, FileTable(live, pieces))
  {
    var table := FileTable(live, pieces);
    forall p: nat | p < |table|
      ensures CanReach(stores, v, table[p].node)
    {
      FileTableAt(live, pieces, p);
      var j := if p % 2 == 0 then p / 2 else NextLive(p / 2, |live|);
      assert Usable(v, live[j]) && live[j] in live;
    }
  }

  /** The outcome r of storing f: it succeeds exactly if every transfer completes, and then every node has gained
      what the table over these nodes gives it, and nothing else has changed. */
  ghost predicate PutOutcome(r: Option<System>, s: System, v: IndexView, live: seq<nat>, f: File)
    requires 1 <= v.netSize <= |live| && v.me in s.stores
  {
    var fileId, pieces := |s.stores[v.me]| + 1, PiecesFor(f, v.netSize);
    && (r.Some? <==> Transferable(v.netSize, f))
    && (r.Some? ==>
          && r.value.index == s.index + [IndexEntry(fileId, FileTable(live, pieces))]
          && Spread(s.stores, r.value.stores, MetaFor(f, fileId, v.netSize), FileTable(live, pieces), pieces, v.me))
  }

  lemma CanPlaceOnTargets(s: System, v: IndexView, live: seq<nat>, f: File)
    requires Targets(v, live) && Sized(v) && v.me in s.stores && forall n :: n in live ==> n in s.stores
    requires TableFor(v, f) == FileTable(live, PiecesFor(f, v.netSize))
    ensures CanPlace(s, v, f) && AllReachable(s.stores, v, TableFor(v, f))
  {
    TargetsReachable(s.stores, v, live, PiecesFor(f, v.netSize));
    ReachableStarted(s.stores, v, MetaFor(f, |s.stores[v.me]| + 1, v.netSize), TableFor(v, f));
  }

  /** Storing a file, given the outcome of its fan-out. */
  function Stored(s: System, f: File, fileId: nat, table: seq<Pointer>, fanout: Option<Stores>): Option<System> {
    if |f.data| % 4096 == 0 || fanout.None? then None
    else Some(System(fanout.value, s.index + [IndexEntry(fileId, table)]))
  }

  /** In a system that has not got the next id yet, storing succeeds exactly if every transfer completes, and gives
      every node what the index's table assigns to it. */
  lemma PutIsFanout(s: System, v: IndexView, f: File) returns (fanout: Option<Stores>)
    requires CanPlace(s, v, f) && AllReachable(s.stores, v, TableFor(v, f))
    requires FreshEverywhere(s.stores, |s.stores[v.me]| + 1)
    ensures PutFile(s, v, f) == Stored(s, f, |s.stores[v.me]| + 1, TableFor(v, f), fanout)
    ensures AsPlanned(fanout, s.stores, MetaFor(f, |s.stores[v.me]| + 1, v.netSize), PiecesFor(f, v.netSize),
                      TableFor(v, f), v.me)
  {
    var m := MetaFor(f, |s.stores[v.me]| + 1, v.netSize);
    FanoutLayout(s.stores, v, m, PiecesFor(f, v.netSize), TableFor(v, f));
    fanout := Fanout(Started(s.stores, v.me, m), v, m, PiecesFor(f, v.netSize), TableFor(v, f));
  }

  lemma OutcomeOfFanout(s: System, v: IndexView, live: seq<nat>, f: File, fanout: Option<Stores>, table: seq<Pointer>)
    requires Targets(v, live) && v.me in s.stores && table == FileTable(live, PiecesFor(f, v.netSize))
    requires AsPlanned(fanout, s.stores, MetaFor(f, |s.stores[v.me]| + 1, v.netSize), PiecesFor(f, v.netSize), table,
                       v.me)
    ensures PutOutcome(Stored(s, f, |s.stores[v.me]| + 1, table, fanout), s, v, live, f)
  {
    SpreadTransportable(live, PiecesFor(f, v.netSize), v.me);
  }

  lemma PutOnTargets(s: System, v: IndexView, live: seq<nat>, f: File)
    requires Targets(v, live) && Sized(v) && v.me in s.stores && forall n :: n in live ==> n in s.stores
    requires FreshEverywhere(s.stores, |s.stores[v.me]| + 1)
    requires TableFor(v, f) == FileTable(live, PiecesFor(f, v.netSize))
    ensures CanPlace(s, v, f) && PutOutcome(PutFile(s, v, f), s, v, live, f)
  {
    CanPlaceOnTargets(s, v, live, f);
    var fanout := PutIsFanout(s, v, f);
    OutcomeOfFanout(s, v, live, f, fanout, TableFor(v, f));
  }

  // ---------------------------------------------------------------- what a new file leaves alone

  /** The two systems agree on everything about file `id`. */
  ghost predicate SameFile(s: System, s': System, id: nat) {
    && s.stores.Keys == s'.stores.Keys && TableOf(s.index, id) == TableOf(s'.index, id)
    && forall n :: n in s.stores ==> Lookup(s.stores[n], id) == Lookup(s'.stores[n], id)
  }

  lemma FetchKept(s: System, s': System, v: IndexView, requester: nat, c: Container, order: seq<nat>)
    requires SameFile(s, s', c.fileId) && CanSelect(s, v, c) && 1 <= requester <= |v.ports|
    ensures CanSelect(s', v, c) && Fetch(s', v, requester, c, order) == Fetch(s, v, requester, c, order)
  {
    var chosen := Select(v, TableOf(s.index, c.fileId).value);
    var d, d' := Deliveries(s, v, requester, c), Deliveries(s', v, requester, c);
    forall i | 0 <= i < c.total
      ensures d[i] == d'[i]
    {
      assert d[i] == Delivery(s, v, requester, c.fileId, c.size, c.total, chosen[i]);
      assert d'[i] == Delivery(s', v, requester, c.fileId, c.size, c.total, chosen[i]);
    }
    assert d == d';
  }

  /** Fetching depends on nothing but the file that is fetched. */
  lemma GetKept(s: System, s': System, v: IndexView, requester: nat, name: string, order: seq<nat>)
    requires v.me in s.stores && v.me in s'.stores && LookupName(s.stores[v.me], Stem(name)).Some?
    requires LookupName(s'.stores[v.me], Stem(name)) == LookupName(s.stores[v.me], Stem(name))
    requires SameFile(s, s', LookupName(s.stores[v.me], Stem(name)).value.fileId)
    ensures GetFile(s', v, requester, name, order) == GetFile(s, v, requester, name, order)
  {
    var c := LookupName(s.stores[v.me], Stem(name)).value;
    if CanSelect(s, v, c) && 1 <= requester <= |v.ports| {
      FetchKept(s, s', v, requester, c, order);
    }
  }

  lemma LookupNameLast(store: FileStore, c: Container, name: string)
    ensures LookupName(store + [c], name) ==
            if LookupName(store, name).Some? then LookupName(store, name)
            else if c.name == name then Some(c) else None
  {
    assert (store + [c])[..|store + [c]| - 1] == store;
  }

  /** Storing a file under an unused id changes nothing about any other file. */
  lemma OtherFilesKept(s: System, s': System, v: IndexView, live: seq<nat>, f: File, id: nat)
    requires 1 <= v.netSize <= |live| && v.me in s.stores && PutOutcome(Some(s'), s, v, live, f)
    requires id != |s.stores[v.me]| + 1
    ensures SameFile(s, s', id)
  {
    var fileId, pieces := |s.stores[v.me]| + 1, PiecesFor(f, v.netSize);
    var m, table := MetaFor(f, fileId, v.netSize), FileTable(live, pieces);
    TableOfLast(s.index, IndexEntry(fileId, table), id);
    forall n | n in s.stores
      ensures Lookup(s.stores[n], id) == Lookup(s'.stores[n], id)
    {
      assert NodeSpread(s.stores, s'.stores, m, table, pieces, v.me, n);
      LookupUnchanged(s.stores[n], m, Held(table, pieces, n), n == v.me, id);
    }
  }

  lemma LookupUnchanged(before: FileStore, m: Meta, held: seq<Slot>, mine: bool, id: nat)
    requires id != m.fileId
    ensures Same(Lookup(before + GainOf(m, held, mine), id), Lookup(before, id))
  {
    LookupAppend(before, GainOf(m, held, mine), id);
  }

  /** What the index's own store gains. */
  lemma IndexGains(s: System, s': System, v: IndexView, live: seq<nat>, f: File) returns (c: Container)
    requires 1 <= v.netSize <= |live| && v.me in s.stores && PutOutcome(Some(s'), s, v, live, f)
    ensures v.me in s'.stores && s'.stores[v.me] == s.stores[v.me] + [c]
    ensures Meta(c.name, c.fileId, c.size, c.total) == MetaFor(f, |s.stores[v.me]| + 1, v.netSize)
  {
    var fileId, pieces := |s.stores[v.me]| + 1, PiecesFor(f, v.netSize);
    var m, table := MetaFor(f, fileId, v.netSize), FileTable(live, pieces);
    assert NodeSpread(s.stores, s'.stores, m, table, pieces, v.me, v.me);
    c := Gained(m, table, pieces, v.me, v.me)[0];
  }

  /** Storing a file never changes the answer to a get that found its name before. */
  lemma PutKeepsGets(s: System, s': System, v: IndexView, live: seq<nat>, f: File, requester: nat, name: string,
                     order: seq<nat>)
    requires 1 <= v.netSize <= |live| && v.me in s.stores && PutOutcome(Some(s'), s, v, live, f)
    requires FreshEverywhere(s.stores, |s.stores[v.me]| + 1) && LookupName(s.stores[v.me], Stem(name)).Some?
    ensures GetFile(s', v, requester, name, order) == GetFile(s, v, requester, name, order)
  {
    var c := IndexGains(s, s', v, live, f);
    LookupNameLast(s.stores[v.me], c, Stem(name));
    OtherFilesKept(s, s', v, live, f, LookupName(s.stores[v.me], Stem(name)).value.fileId);
    GetKept(s, s', v, requester, name, order);
  }

  // ---------------------------------------------------------------- the new file comes back

  lemma TargetsInBounds(v: IndexView, live: seq<nat>, pieces: seq<seq<byte>>)
    requires Targets(v, live) && 1 <= |pieces| <= |live|
    ensures TableInBounds(v, FileTable(live, pieces))
  {
    var table := FileTable(live, pieces);
    forall p: nat | p < |table|
      ensures InTable(v, table[p].node)
    {
      FileTableAt(live, pieces, p);
      assert Usable(v, live[if p % 2 == 0 then p / 2 else NextLive(p / 2, |live|)]);
    }
  }

  /** Everybody in the list is alive, so every fragment is asked from its first holder. */
  lemma PrimaryChosen(v: IndexView, live: seq<nat>, pieces: seq<seq<byte>>, i: nat)
    requires Targets(v, live) && 1 <= |pieces| <= |live| && i < |pieces|
    ensures TableInBounds(v, FileTable(live, pieces))
    ensures Select(v, FileTable(live, pieces))[i] == Pointer(i + 1, |pieces[i]|, live[i])
  {
    var table := FileTable(live, pieces);
    TargetsInBounds(v, live, pieces);
    RowOfTable(live, Sizes(pieces), i);
    assert Usable(v, live[i]) && InTable(v, table[2 * i].node);
    assert Select(v, table)[i] == Choice(v, table, i);
  }

  lemma FoundInGain(before: FileStore, gain: FileStore, fileId: nat)
    requires NotIn(before, fileId) && |gain| == 1 && gain[0].fileId == fileId
    ensures Lookup(before + gain, fileId) == Some(gain[0])
  {
    LookupAppend(before, gain, fileId);
  }

  lemma LiveGains(live: seq<nat>, pieces: seq<seq<byte>>, m: Meta, me: nat, i: nat)
    requires Spreads(live, pieces) && i < |pieces|
    ensures var gain := Gained(m, FileTable(live, pieces), pieces, me, live[i]);
            && |gain| == 1 && gain[0].fileId == m.fileId && gain[0].size == m.size
            && ServedSlot(gain[0], i + 1) == Some(pieces[i])
  {
    LiveServes(live, pieces, m, me, i, i);
  }

  lemma NewFileHeld(s: System, s': System, v: IndexView, live: seq<nat>, f: File, i: nat)
    requires Targets(v, live) && v.me in s.stores && PutOutcome(Some(s'), s, v, live, f)
    requires FreshEverywhere(s.stores, |s.stores[v.me]| + 1) && i < |PiecesFor(f, v.netSize)| && live[i] in s.stores
    ensures Holds(s'.stores, live[i], |s.stores[v.me]| + 1, |f.data|, i + 1, PiecesFor(f, v.netSize)[i])
  {
    var fileId, pieces := |s.stores[v.me]| + 1, PiecesFor(f, v.netSize);
    var m, table, n := MetaFor(f, fileId, v.netSize), FileTable(live, pieces), live[i];
    LiveGains(live, pieces, m, v.me, i);
    FoundInGain(s.stores[n], Gained(m, table, pieces, v.me, n), fileId);
    assert NodeSpread(s.stores, s'.stores, m, table, pieces, v.me, n);
  }

  lemma PrimaryServed(s: System, v: IndexView, f: File, requester: nat, fileId: nat, chosen: seq<Pointer>, i: nat,
                      n: nat)
    requires v.netSize >= 1 && |chosen| == |PiecesFor(f, v.netSize)| && i < |chosen| && Usable(v, n)
    requires var piece := PiecesFor(f, v.netSize)[i];
             && chosen[i] == Pointer(i + 1, |piece|, n) && |piece| % 4096 != 0
             && Holds(s.stores, n, fileId, |f.data|, i + 1, piece)
    ensures ChoiceServed(s, v, requester, fileId, f.data, chosen, i)
  {
    assert PiecesFor(f, v.netSize)[i + 1 - 1] == Fragment(f.data, |chosen|, i + 1);
  }

  lemma NewFileServed(s: System, s': System, v: IndexView, live: seq<nat>, f: File, requester: nat, i: nat)
    requires Targets(v, live) && v.me in s.stores && PutOutcome(Some(s'), s, v, live, f)
    requires FreshEverywhere(s.stores, |s.stores[v.me]| + 1) && i < |PiecesFor(f, v.netSize)| && live[i] in s.stores
    ensures TableInBounds(v, FileTable(live, PiecesFor(f, v.netSize)))
    ensures ChoiceServed(s', v, requester, |s.stores[v.me]| + 1, f.data,
                         Select(v, FileTable(live, PiecesFor(f, v.netSize))), i)
  {
    var pieces := PiecesFor(f, v.netSize);
    PrimaryChosen(v, live, pieces, i);
    NewFileHeld(s, s', v, live, f, i);
    assert Usable(v, live[i]) && |pieces[i]| % 4096 != 0;
    PrimaryServed(s', v, f, requester, |s.stores[v.me]| + 1, Select(v, FileTable(live, pieces)), i, live[i]);
  }

  /** System s' is s with file f stored on these nodes, under an id and a name that were not in use. */
  ghost predicate NewPut(s: System, s': System, v: IndexView, live: seq<nat>, f: File) {
    && Targets(v, live) && v.me in s.stores && (forall n :: n in live ==> n in s.stores)
    && PutOutcome(Some(s'), s, v, live, f)
    && FreshEverywhere(s.stores, |s.stores[v.me]| + 1) && TableOf(s.index, |s.stores[v.me]| + 1).None?
    && LookupName(s.stores[v.me], Stem(f.name)).None?
  }

  lemma NewPutServed(s: System, s': System, v: IndexView, live: seq<nat>, f: File, requester: nat)
    requires NewPut(s, s', v, live, f)
    ensures TableInBounds(v, FileTable(live, PiecesFor(f, v.netSize)))
    ensures Served(s', v, requester, |s.stores[v.me]| + 1, f.data, Select(v, FileTable(live, PiecesFor(f, v.netSize))))
  {
    var fileId, pieces := |s.stores[v.me]| + 1, PiecesFor(f, v.netSize);
    TargetsInBounds(v, live, pieces);
    forall i: nat | i < |pieces|
      ensures ChoiceServed(s', v, requester, fileId, f.data, Select(v, FileTable(live, pieces)), i)
    {
      assert live[i] in live;
      NewFileServed(s, s', v, live, f, requester, i);
    }
  }

  /** Put, then get, with nobody else dying in between: for any list of usable nodes, any file whose transfers
      complete, any requester and any arrival order, the bytes that were stored come back. */
  lemma PutThenGet(s: System, s': System, v: IndexView, live: seq<nat>, f: File, requester: nat, order: seq<nat>)
    requires NewPut(s, s', v, live, f)
    requires 1 <= requester <= |v.ports| && Dials(v, requester) && requester != v.me
    requires IsPermutation(order, FragmentCount(|f.data|, v.netSize))
    ensures GetFile(s', v, requester, f.name, order) == Returned(f.data)
  {
    var fileId, pieces := |s.stores[v.me]| + 1, PiecesFor(f, v.netSize);
    var c := IndexGains(s, s', v, live, f);
    LookupNameLast(s.stores[v.me], c, Stem(f.name));
    TableOfLast(s.index, IndexEntry(fileId, FileTable(live, pieces)), fileId);
    NewPutServed(s, s', v, live, f, requester);
    GetReturns(s', v, requester, f.data, c, order);
  }

  // ---------------------------------------------------------------- the index's catalogue

  /** At most k containers, with ids 1..k. */
  predicate IdsWithin(store: FileStore, k: nat) {
    |store| <= k && forall i :: 0 <= i < |store| ==> 1 <= store[i].fileId <= k
  }

  /** The index lists these files, and nobody knows of any id beyond them. */
  ghost predicate Catalogue(s: System, me: nat, files: seq<File>) {
    && me in s.stores && Lists(s.stores[me], files)
    && (forall n :: n in s.stores ==> IdsWithin(s.stores[n], |files|))
    && forall id: nat :: id > |files| ==> TableOf(s.index, id).None?
  }

  lemma CatalogueFresh(s: System, me: nat, files: seq<File>)
    requires Catalogue(s, me, files)
    ensures FreshEverywhere(s.stores, |files| + 1) && TableOf(s.index, |files| + 1).None?
  {
    forall n | n in s.stores
      ensures NotIn(s.stores[n], |files| + 1)
    {
      assert IdsWithin(s.stores[n], |files|);
    }
  }

  lemma GainWithin(before: FileStore, m: Meta, table: seq<Pointer>, pieces: seq<seq<byte>>, me: nat, n: nat, k: nat)
    requires GoodTable(table, pieces) && IdsWithin(before, k) && m.fileId == k + 1
    ensures IdsWithin(before + Gained(m, table, pieces, me, n), k + 1)
  {
  }

  lemma ListsLast(store: FileStore, c: Container, files: seq<File>, f: File)
    requires Lists(store, files) && c.fileId == |files| + 1 && c.name == Stem(f.name)
    ensures Lists(store + [c], files + [f])
  {
  }

  lemma StoresWithin(s: System, s': System, v: IndexView, live: seq<nat>, k: nat, f: File)
    requires 1 <= v.netSize <= |live| && v.me in s.stores && PutOutcome(Some(s'), s, v, live, f)
    requires |s.stores[v.me]| == k && forall n :: n in s.stores ==> IdsWithin(s.stores[n], k)
    ensures s'.stores.Keys == s.stores.Keys && forall n :: n in s'.stores ==> IdsWithin(s'.stores[n], k + 1)
  {
    var m, pieces := MetaFor(f, k + 1, v.netSize), PiecesFor(f, v.netSize);
    forall n | n in s'.stores
      ensures IdsWithin(s'.stores[n], k + 1)
    {
      assert NodeSpread(s.stores, s'.stores, m, FileTable(live, pieces), pieces, v.me, n);
      GainWithin(s.stores[n], m, FileTable(live, pieces), pieces, v.me, n, k);
    }
  }

  lemma CatalogueGrows(s: System, s': System, v: IndexView, live: seq<nat>, files: seq<File>, f: File)
    requires 1 <= v.netSize <= |live| && Catalogue(s, v.me, files) && PutOutcome(Some(s'), s, v, live, f)
    ensures Catalogue(s', v.me, files + [f]) && s'.stores.Keys == s.stores.Keys
  {
    var c := IndexGains(s, s', v, live, f);
    ListsLast(s.stores[v.me], c, files, f);
    StoresWithin(s, s', v, live, |files|, f);
    forall id: nat | id > |files| + 1
      ensures TableOf(s'.index, id).None?
    {
      OtherFilesKept(s, s', v, live, f, id);
    }
  }

  // ---------------------------------------------------------------- any number of new files

  /** A survivor other than the index asks, and fragments arrive in some order. */
  ghost predicate ValidGet(ring: nat, lost: nat, requester: nat, order: seq<nat>, count: nat) {
    1 <= requester < ring && requester != lost && IsPermutation(order, count)
  }

  /** Whoever asks, and in whatever order fragments arrive, a get of this name gives this answer. */
  ghost predicate Answers(s: System, v: IndexView, ring: nat, lost: nat, name: string, count: nat, answer: GetResult) {
    forall requester, order :: ValidGet(ring, lost, requester, order, count) ==>
      GetFile(s, v, requester, name, order) == answer
  }

  /** Gets of this name are answered as before. */
  ghost predicate Undisturbed(s: System, s': System, v: IndexView, name: string) {
    forall requester, order :: GetFile(s', v, requester, name, order) == GetFile(s, v, requester, name, order)
  }

  ghost predicate Comes(s: System, v: IndexView, ring: nat, lost: nat, f: File) {
    Answers(s, v, ring, lost, f.name, FragmentCount(|f.data|, v.netSize), Returned(f.data))
  }

  /** Gets of the first `early` names are answered as before. */
  ghost predicate AllUndisturbed(s: System, s': System, v: IndexView, files: seq<File>, early: nat) {
    forall g: nat :: g < early && g < |files| ==> Undisturbed(s, s', v, files[g].name)
  }

  /** Every later file that is the first of its name comes back. */
  ghost predicate AllCome(s: System, v: IndexView, ring: nat, lost: nat, files: seq<File>, early: nat) {
    forall g: nat :: early <= g < |files| && Leads(files, g) ==> Comes(s, v, ring, lost, files[g])
  }

  /** System s holds these files; it has grown from s0, which held the first `early` ones of them. */
  ghost predicate Grown(s0: System, s: System, v: IndexView, ring: nat, lost: nat, files: seq<File>, early: nat) {
    && Catalogue(s, ring, files) && s.stores.Keys == RingNodes(ring) - {lost}
    && AllUndisturbed(s0, s, v, files, early) && AllCome(s, v, ring, lost, files, early)
  }

  lemma KnownUndisturbed(s: System, s': System, v: IndexView, live: seq<nat>, files: seq<File>, f: File, g: nat)
    requires 1 <= v.netSize <= |live| && Catalogue(s, v.me, files) && PutOutcome(Some(s'), s, v, live, f) && g < |files|
    ensures Undisturbed(s, s', v, files[g].name)
  {
    CatalogueFresh(s, v.me, files);
    assert s.stores[v.me][g].name == Stem(files[g].name);
    forall requester, order
      ensures GetFile(s', v, requester, files[g].name, order) == GetFile(s, v, requester, files[g].name, order)
    {
      PutKeepsGets(s, s', v, live, f, requester, files[g].name, order);
    }
  }

  lemma AllKnownUndisturbed(s: System, s': System, v: IndexView, live: seq<nat>, files: seq<File>, f: File)
    requires 1 <= v.netSize <= |live| && Catalogue(s, v.me, files) && PutOutcome(Some(s'), s, v, live, f)
    ensures AllUndisturbed(s, s', v, files, |files|)
  {
    forall g: nat | g < |files|
      ensures Undisturbed(s, s', v, files[g].name)
    {
      KnownUndisturbed(s, s', v, live, files, f, g);
    }
  }

  /** A file with a new name is not found before it is stored. */
  lemma NameIsNew(store: FileStore, files: seq<File>, f: File)
    requires Lists(store, files) && Leads(files + [f], |files|)
    ensures LookupName(store, Stem(f.name)).None?
  {
    var all := files + [f];
    assert forall j :: 0 <= j < |files| ==> all[j] == files[j] && !HasName(all[j], f.name);
    UnlistedName(store, files, f.name);
  }

  lemma NewPutComes(s: System, s': System, v: IndexView, live: seq<nat>, ring: nat, lost: nat, f: File)
    requires LossView(v, ring, lost)
    ensures NewPut(s, s', v, live, f) ==> Comes(s', v, ring, lost, f)
  {
    if NewPut(s, s', v, live, f) {
      forall requester, order | ValidGet(ring, lost, requester, order, FragmentCount(|f.data|, v.netSize))
        ensures GetFile(s', v, requester, f.name, order) == Returned(f.data)
      {
        AliveIff(v, ring, lost, requester);
        PutThenGet(s, s', v, live, f, requester, order);
      }
    }
  }

  lemma SpotsStored(stores: Stores, v: IndexView, ring: nat, lost: nat)
    requires LossView(v, ring, lost) && stores.Keys == RingNodes(ring) - {lost}
    ensures forall n :: n in Spots(v, ring, lost) ==> n in stores
  {
    SpotsUsable(v, ring, lost);
  }

  lemma NewFileComes(s: System, s': System, v: IndexView, ring: nat, lost: nat, files: seq<File>, f: File)
    requires LossView(v, ring, lost) && Catalogue(s, ring, files) && s.stores.Keys == RingNodes(ring) - {lost}
    requires Targets(v, Spots(v, ring, lost)) && PutOutcome(Some(s'), s, v, Spots(v, ring, lost), f)
    requires Leads(files + [f], |files|)
    ensures Comes(s', v, ring, lost, f)
  {
    CatalogueFresh(s, ring, files);
    NameIsNew(s.stores[ring], files, f);
    SpotsStored(s.stores, v, ring, lost);
    NewPutComes(s, s', v, Spots(v, ring, lost), ring, lost, f);
  }

  lemma UndisturbedThroughout(s0: System, s: System, s': System, v: IndexView, files: seq<File>, f: File, early: nat)
    requires early <= |files|
    ensures AllUndisturbed(s0, s, v, files, early) && AllUndisturbed(s, s', v, files, |files|) ==>
              AllUndisturbed(s0, s', v, files + [f], early)
  {
  }

  lemma LeadsStill(files: seq<File>, f: File, g: nat)
    requires g < |files| && Leads(files + [f], g)
    ensures Leads(files, g)
  {
    var all := files + [f];
    assert forall j :: 0 <= j <= g ==> all[j] == files[j];
  }

  lemma AllStillCome(s: System, s': System, v: IndexView, ring: nat, lost: nat, files: seq<File>, f: File, early: nat)
    requires early <= |files| && (Leads(files + [f], |files|) ==> Comes(s', v, ring, lost, f))
    ensures AllCome(s, v, ring, lost, files, early) && AllUndisturbed(s, s', v, files, |files|) ==>
              AllCome(s', v, ring, lost, files + [f], early)
  {
    if AllCome(s, v, ring, lost, files, early) && AllUndisturbed(s, s', v, files, |files|) {
      var all := files + [f];
      forall g: nat | early <= g < |all| && Leads(all, g)
        ensures Comes(s', v, ring, lost, all[g])
      {
        if g < |files| {
          LeadsStill(files, f, g);
          assert Undisturbed(s, s', v, files[g].name);
        }
      }
    }
  }

  lemma GrownStill(s0: System, s: System, s': System, v: IndexView, ring: nat, lost: nat, files: seq<File>, early: nat,
                   f: File)
    requires LossView(v, ring, lost) && Grown(s0, s, v, ring, lost, files, early) && early <= |files|
    requires Targets(v, Spots(v, ring, lost)) && PutOutcome(Some(s'), s, v, Spots(v, ring, lost), f)
    ensures Grown(s0, s', v, ring, lost, files + [f], early)
  {
    var live := Spots(v, ring, lost);
    CatalogueGrows(s, s', v, live, files, f);
    AllKnownUndisturbed(s, s', v, live, files, f);
    UndisturbedThroughout(s0, s, s', v, files, f, early);
    if Leads(files + [f], |files|) {
      NewFileComes(s, s', v, ring, lost, files, f);
    }
    AllStillCome(s, s', v, ring, lost, files, f, early);
  }

  /** One more file after a loss: storing it succeeds exactly if every transfer completes, and then all files can be
      fetched as before, and the new one too unless there was one of its name. */
  lemma GrowsByOne(s0: System, s: System, v: IndexView, ring: nat, lost: nat, files: seq<File>, early: nat, f: File)
    requires LossView(v, ring, lost) && Grown(s0, s, v, ring, lost, files, early) && early <= |files|
    ensures CanPlace(s, v, f) && (PutFile(s, v, f).Some? <==> v.netSize >= 1 && Transferable(v.netSize, f))
    ensures PutFile(s, v, f).Some? ==> Grown(s0, PutFile(s, v, f).value, v, ring, lost, files + [f], early)
  {
    SpotsUsable(v, ring, lost);
    SpotsStored(s.stores, v, ring, lost);
    PlacedOnSpots(v, ring, lost, f);
    CatalogueFresh(s, ring, files);
    PutOnTargets(s, v, Spots(v, ring, lost), f);
    if PutFile(s, v, f).Some? {
      GrownStill(s0, s, PutFile(s, v, f).value, v, ring, lost, files, early, f);
    }
  }
}
