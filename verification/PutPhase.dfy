/** Storing any list of files in a complete ring: which node ends up with what, and when it succeeds. */
module PutPhase {
  import opened Types
  import opened Split
  import opened Placement
  import opened Storage
  import opened Layout
  import opened Cluster

  /** The view of the index of a complete ring 1..ring. */
  ghost predicate FullView(v: IndexView, ring: nat) {
    && ring >= 2 && v.me == ring == v.netSize == |v.ports| && v.deathCount == 0 && v.knownPeers == ring - 1
    && forall n: nat :: 1 <= n < ring ==> v.ports[n - 1] == AddressOf(n)
  }

  lemma {:induction false} LiveUpToFull(v: IndexView, ring: nat, k: nat)
    requires FullView(v, ring) && k <= ring
    ensures LiveUpTo(v, k) == FirstNodes(k)
  {
    if k > 0 {
      LiveUpToFull(v, ring, k - 1);
      assert k != v.me ==> v.ports[k - 1] == AddressOf(k);
      assert IsValidNode(v, k);
      FirstNodesLast(k);
    }
  }

  lemma FirstNodesLast(k: nat)
    requires k > 0
    ensures FirstNodes(k) == FirstNodes(k - 1) + [k]
  {
  }

  /** A file, the id it gets, and what follows from it in a ring of this size. */
  function Pieces(ring: nat, f: File): (pieces: seq<seq<byte>>)
    requires ring >= 1
    ensures |pieces| == FragmentCount(|f.data|, ring) <= ring
  {
    PiecesFor(f, ring)
  }

  function RingTable(ring: nat, f: File): (table: seq<Pointer>)
    requires ring >= 1
    ensures |table| == 2 * |Pieces(ring, f)| && GoodTable(table, Pieces(ring, f))
  {
    FileTable(FirstNodes(ring), Pieces(ring, f))
  }

  /** The containers node n gains with the file of this id. */
  function Gain(ring: nat, f: File, fileId: nat, n: nat): FileStore
    requires ring >= 1
  {
    Gained(MetaFor(f, fileId, ring), RingTable(ring, f), Pieces(ring, f), ring, n)
  }

  /** The store of node n once all files are in. */
  function StoreOf(ring: nat, files: seq<File>, n: nat): FileStore
    requires ring >= 1
  {
    if files == [] then []
    else StoreOf(ring, files[..|files| - 1], n) + Gain(ring, files[|files| - 1], |files|, n)
  }

  function IndexFor(ring: nat, files: seq<File>): seq<IndexEntry>
    requires ring >= 1
  {
    if files == [] then []
    else IndexFor(ring, files[..|files| - 1]) + [IndexEntry(|files|, RingTable(ring, files[|files| - 1]))]
  }

  /** No transfer of this file has a size divisible by the bucket size: neither the upload nor any fragment. */
  ghost predicate Transferable(ring: nat, f: File)
    requires ring >= 1
  {
    |f.data| % 4096 != 0 && AllSendable(Pieces(ring, f))
  }

  // ---------------------------------------------------------------- one file

  /** What the index computes is the closed form of the table. */
  lemma TableIsRingTable(v: IndexView, ring: nat, f: File)
    requires FullView(v, ring)
    ensures Sized(v) && TableFor(v, f) == RingTable(ring, f)
  {
    LiveUpToFull(v, ring, ring);
    var count := FragmentCount(|f.data|, ring);
    PlacementOverAnyLiveSet(v, FragmentSizes(|f.data|, count));
    SizesOfFragments(f.data, count);
  }

  lemma RingTableNode(ring: nat, f: File, p: nat)
    requires ring >= 2 && p < 2 * |Pieces(ring, f)|
    ensures 1 <= RingTable(ring, f)[p].node <= ring
  {
    FileTableAt(FirstNodes(ring), Pieces(ring, f), p);
  }

  lemma RingReachable(stores: Stores, v: IndexView, ring: nat, f: File)
    requires FullView(v, ring) && forall n: nat :: 1 <= n <= ring ==> n in stores
    ensures AllReachable(stores, v, RingTable(ring, f))
  {
    var table := RingTable(ring, f);
    forall p: nat | p < |table|
      ensures CanReach(stores, v, table[p].node)
    {
      RingTableNode(ring, f, p);
      var n := table[p].node;
      assert n != ring ==> v.ports[n - 1] == AddressOf(n);
    }
  }

  // ---------------------------------------------------------------- all files

  /** The system of a complete ring in which exactly these files are stored. */
  function Deposited(ring: nat, files: seq<File>): System
    requires ring >= 1
  {
    System(map n: nat | n in RingNodes(ring) :: StoreOf(ring, files, n), IndexFor(ring, files))
  }

  predicate AsStored(s: System, ring: nat, files: seq<File>)
    requires ring >= 1
  {
    Same(s, Deposited(ring, files))
  }

  /** The same, node by node. */
  ghost predicate HasLayout(s: System, ring: nat, files: seq<File>)
    requires ring >= 1
  {
    && s.stores.Keys == RingNodes(ring)
    && (forall n: nat :: 1 <= n <= ring ==> s.stores[n] == StoreOf(ring, files, n))
    && s.index == IndexFor(ring, files)
  }

  lemma StoredLayout(s: System, ring: nat, files: seq<File>)
    requires ring >= 1
    ensures AsStored(s, ring, files) <==> HasLayout(s, ring, files)
  {
    if HasLayout(s, ring, files) {
      assert s.stores == Deposited(ring, files).stores;
    }
  }

  lemma StoreOfLast(ring: nat, files: seq<File>, f: File, n: nat)
    requires ring >= 1
    ensures StoreOf(ring, files + [f], n) == StoreOf(ring, files, n) + Gain(ring, f, |files| + 1, n)
    ensures IndexFor(ring, files + [f]) == IndexFor(ring, files) + [IndexEntry(|files| + 1, RingTable(ring, f))]
  {
    assert (files + [f])[..|files + [f]| - 1] == files;
  }

  /** Ids are given out in order: the store of node n has at most one container a file, with ids 1..|files| only. */
  lemma {:induction false} IdsInOrder(ring: nat, files: seq<File>, n: nat)
    requires ring >= 1
    ensures |StoreOf(ring, files, n)| <= |files|
    ensures forall i :: 0 <= i < |StoreOf(ring, files, n)| ==> 1 <= StoreOf(ring, files, n)[i].fileId <= |files|
  {
    if files != [] {
      var front, last := files[..|files| - 1], files[|files| - 1];
      IdsInOrder(ring, front, n);
      FrontLast(files);
      StoreOfLast(ring, front, last, n);
    }
  }

  lemma IndexGainsOne(ring: nat, f: File, fileId: nat)
    requires ring >= 1
    ensures |Gain(ring, f, fileId, ring)| == 1 && Gain(ring, f, fileId, ring)[0].fileId == fileId
  {
  }

  lemma Appended(before: FileStore, gain: FileStore)
    requires |gain| == 1 && gain[0].fileId == |before| + 1
    requires forall i :: 0 <= i < |before| ==> before[i].fileId == i + 1
    ensures |before + gain| == |before| + 1
    ensures forall i :: 0 <= i < |before + gain| ==> (before + gain)[i].fileId == i + 1
  {
  }

  /** The index has a container for every file, in id order: container i has id i + 1. */
  lemma {:induction false} IndexIdsAreSequential(ring: nat, files: seq<File>)
    requires ring >= 1
    ensures |StoreOf(ring, files, ring)| == |files|
    ensures forall i :: 0 <= i < |files| ==> StoreOf(ring, files, ring)[i].fileId == i + 1
  {
    if files != [] {
      var front, last := files[..|files| - 1], files[|files| - 1];
      IndexIdsAreSequential(ring, front);
      FrontLast(files);
      StoreOfLast(ring, front, last, ring);
      IndexGainsOne(ring, last, |files|);
      Appended(StoreOf(ring, front, ring), Gain(ring, last, |files|, ring));
    }
  }

  lemma NextIdIsFresh(s: System, ring: nat, files: seq<File>)
    requires ring >= 1 && AsStored(s, ring, files)
    ensures ring in s.stores && |s.stores[ring]| == |files| && FreshEverywhere(s.stores, |files| + 1)
  {
    StoredLayout(s, ring, files);
    IndexIdsAreSequential(ring, files);
    forall n | n in s.stores
      ensures NotIn(s.stores[n], |files| + 1)
    {
      IdsInOrder(ring, files, n);
      assert s.stores[n] == StoreOf(ring, files, n);
    }
  }

  lemma SpreadIsStored(s: System, after: Stores, ring: nat, files: seq<File>, f: File)
    requires ring >= 1 && AsStored(s, ring, files)
    requires Spread(s.stores, after, MetaFor(f, |files| + 1, ring), RingTable(ring, f), Pieces(ring, f), ring)
    ensures AsStored(System(after, s.index + [IndexEntry(|files| + 1, RingTable(ring, f))]), ring, files + [f])
  {
    StoredLayout(s, ring, files);
    StoreOfLast(ring, files, f, ring);
    forall n: nat | 1 <= n <= ring
      ensures after[n] == StoreOf(ring, files + [f], n)
    {
      StoreOfLast(ring, files, f, n);
      assert NodeSpread(s.stores, after, MetaFor(f, |files| + 1, ring), RingTable(ring, f), Pieces(ring, f), ring, n);
    }
    StoredLayout(System(after, s.index + [IndexEntry(|files| + 1, RingTable(ring, f))]), ring, files + [f]);
  }

  lemma CanPlaceInRing(s: System, v: IndexView, ring: nat, files: seq<File>, f: File)
    requires FullView(v, ring) && AsStored(s, ring, files)
    ensures CanPlace(s, v, f) && TableFor(v, f) == RingTable(ring, f)
    ensures AllReachable(s.stores, v, RingTable(ring, f))
  {
    StoredLayout(s, ring, files);
    TableIsRingTable(v, ring, f);
    NextIdIsFresh(s, ring, files);
    RingReachable(s.stores, v, ring, f);
    ReachableStarted(s.stores, v, MetaFor(f, |files| + 1, ring), RingTable(ring, f));
  }

  lemma PutStep(s: System, v: IndexView, ring: nat, files: seq<File>, f: File)
    requires FullView(v, ring) && AsStored(s, ring, files)
    ensures CanPlace(s, v, f)
    ensures PutFile(s, v, f).Some? <==> Transferable(ring, f)
    ensures PutFile(s, v, f).Some? ==> AsStored(PutFile(s, v, f).value, ring, files + [f])
  {
    var m, table, pieces := MetaFor(f, |files| + 1, ring), RingTable(ring, f), Pieces(ring, f);
    CanPlaceInRing(s, v, ring, files, f);
    NextIdIsFresh(s, ring, files);
    FanoutLayout(s.stores, v, m, pieces, table);
    SpreadTransportable(FirstNodes(ring), pieces, ring);
    var r := Fanout(Started(s.stores, v.me, m), v, m, pieces, table);
    PutFileIs(s, v, ring, files, f, r);
    if r.Some? {
      SpreadIsStored(s, r.value, ring, files, f);
    }
  }

  lemma PutFileIs(s: System, v: IndexView, ring: nat, files: seq<File>, f: File, r: Option<Stores>)
    requires v.me == ring == v.netSize && ring >= 1 && CanPlace(s, v, f) && |s.stores[ring]| == |files|
    requires TableFor(v, f) == RingTable(ring, f)
    requires r == Fanout(Started(s.stores, v.me, MetaFor(f, |files| + 1, ring)), v, MetaFor(f, |files| + 1, ring),
                         Pieces(ring, f), RingTable(ring, f))
    ensures PutFile(s, v, f) ==
            if |f.data| % 4096 == 0 || r.None? then None
            else Some(System(r.value, s.index + [IndexEntry(|files| + 1, RingTable(ring, f))]))
  {
  }

  /** Storing the files one after the other. */
  ghost function PutAll(s: System, v: IndexView, files: seq<File>): Option<System> {
    if files == [] then Some(s)
    else
      match PutAll(s, v, files[..|files| - 1])
      case None => None
      case Some(s') => if CanPlace(s', v, files[|files| - 1]) then PutFile(s', v, files[|files| - 1]) else None
  }

  lemma PutAllLast(s: System, v: IndexView, front: seq<File>, last: File)
    ensures PutAll(s, v, front + [last]) ==
            match PutAll(s, v, front)
            case None => None
            case Some(s') => if CanPlace(s', v, last) then PutFile(s', v, last) else None
  {
    assert (front + [last])[..|front + [last]| - 1] == front;
  }

  function Empty(ring: nat): System {
    System(map n | n in RingNodes(ring) :: [], [])
  }

  ghost predicate AllTransferable(ring: nat, files: seq<File>)
    requires ring >= 1
  {
    forall i :: 0 <= i < |files| ==> Transferable(ring, files[i])
  }

  lemma TransferableLast(ring: nat, front: seq<File>, last: File)
    requires ring >= 1
    ensures AllTransferable(ring, front + [last]) <==> AllTransferable(ring, front) && Transferable(ring, last)
  {
    var files := front + [last];
    assert files[|front|] == last && forall i :: 0 <= i < |front| ==> files[i] == front[i];
  }

  lemma EmptyStored(ring: nat)
    requires ring >= 1
    ensures AsStored(Empty(ring), ring, [])
  {
    StoredLayout(Empty(ring), ring, []);
  }

  /** The outcome r of storing the files. */
  ghost predicate StoredIff(r: Option<System>, ring: nat, files: seq<File>)
    requires ring >= 1
  {
    (r.Some? <==> AllTransferable(ring, files)) && (r.Some? ==> AsStored(r.value, ring, files))
  }

  lemma PutOneMore(r: Option<System>, v: IndexView, ring: nat, front: seq<File>, last: File)
    requires FullView(v, ring) && StoredIff(r, ring, front)
    ensures StoredIff(match r
                      case None => None
                      case Some(s) => if CanPlace(s, v, last) then PutFile(s, v, last) else None,
                      ring, front + [last])
  {
    TransferableLast(ring, front, last);
    if r.Some? {
      PutStep(r.value, v, ring, front, last);
    }
  }

  /** Storing any list of files in a complete ring succeeds exactly when every transfer completes, and leaves
      every node with exactly its share of every file. */
  lemma {:induction false} PutAllLayout(v: IndexView, ring: nat, files: seq<File>)
    requires FullView(v, ring)
    ensures StoredIff(PutAll(Empty(ring), v, files), ring, files)
  {
    if files == [] {
      EmptyStored(ring);
    } else {
      var front, last := files[..|files| - 1], files[|files| - 1];
      FrontLast(files);
      PutAllLayout(v, ring, front);
      PutAllLast(Empty(ring), v, front, last);
      PutOneMore(PutAll(Empty(ring), v, front), v, ring, front, last);
    }
  }

  // ---------------------------------------------------------------- what the nodes hold

  lemma GainIds(ring: nat, f: File, fileId: nat, n: nat)
    requires ring >= 1
    ensures |Gain(ring, f, fileId, n)| <= 1
    ensures Gain(ring, f, fileId, n) != [] ==>
              Gain(ring, f, fileId, n)[0] ==
              WithSlots(MetaFor(f, fileId, ring), Held(RingTable(ring, f), Pieces(ring, f), n))
  {
  }

  function First(store: FileStore): Option<Container> {
    if store == [] then None else Some(store[0])
  }

  /** Looking a file up in a node's store finds what the node gained with that file. */
  lemma {:induction false} LookupInStore(ring: nat, files: seq<File>, n: nat, fileId: nat)
    requires ring >= 1 && 1 <= fileId <= |files|
    ensures Lookup(StoreOf(ring, files, n), fileId) == First(Gain(ring, files[fileId - 1], fileId, n))
  {
    var front, last := files[..|files| - 1], files[|files| - 1];
    FrontLast(files);
    StoreOfLast(ring, front, last, n);
    GainIds(ring, last, |files|, n);
    LookupAppend(StoreOf(ring, front, n), Gain(ring, last, |files|, n), fileId);
    if fileId < |files| {
      LookupInStore(ring, front, n, fileId);
    } else {
      IdsInOrder(ring, front, n);
    }
  }

  lemma LookupAppend(store: FileStore, gain: FileStore, fileId: nat)
    requires |gain| <= 1
    ensures Lookup(store + gain, fileId) ==
            if Lookup(store, fileId).Some? then Lookup(store, fileId)
            else if gain != [] && gain[0].fileId == fileId then Some(gain[0]) else None
  {
    if gain == [] {
      assert store + gain == store;
    } else {
      assert gain == [gain[0]];
      LookupLast(store, gain[0], fileId);
    }
  }

  lemma {:induction false} TableInIndex(ring: nat, files: seq<File>, fileId: nat)
    requires ring >= 1
    ensures TableOf(IndexFor(ring, files), fileId) ==
            if 1 <= fileId <= |files| then Some(RingTable(ring, files[fileId - 1])) else None
  {
    if files != [] {
      var front, last := files[..|files| - 1], files[|files| - 1];
      FrontLast(files);
      StoreOfLast(ring, front, last, 0);
      TableInIndex(ring, front, fileId);
      TableOfLast(IndexFor(ring, front), IndexEntry(|files|, RingTable(ring, last)), fileId);
    }
  }

  /** Every container describes the file of its id. */
  lemma {:induction false} ContainersDescribe(ring: nat, files: seq<File>, n: nat, c: Container)
    requires ring >= 1 && c in StoreOf(ring, files, n)
    ensures 1 <= c.fileId <= |files| && Describes(c, files, ring)
  {
    var front, last := files[..|files| - 1], files[|files| - 1];
    FrontLast(files);
    StoreOfLast(ring, front, last, n);
    GainIds(ring, last, |files|, n);
    if c in StoreOf(ring, front, n) {
      ContainersDescribe(ring, front, n, c);
    }
  }

  predicate Describes(c: Container, files: seq<File>, ring: nat) {
    && 1 <= c.fileId <= |files|
    && Meta(c.name, c.fileId, c.size, c.total) == MetaFor(files[c.fileId - 1], c.fileId, ring)
  }

  /** The answer r is a container of file g, or none if there is no such file. */
  predicate FindsFile(r: Option<Container>, ring: nat, files: seq<File>, g: Option<nat>) {
    match g
    case None => r.None?
    case Some(i) => r.Some? && r.value.fileId == i + 1 && Describes(r.value, files, ring)
  }

  lemma SlotsServe(m: Meta, pieces: seq<seq<byte>>, ids: seq<nat>, f: nat)
    requires 1 <= |ids| <= 2 && (forall k :: 0 <= k < |ids| ==> 1 <= ids[k] <= |pieces|) && f in ids
    ensures ServedSlot(WithSlots(m, Slots(pieces, ids)), f) == Some(pieces[f - 1])
  {
  }

  lemma ShareHas(ring: nat, count: nat, i: nat, j: nat)
    requires 1 <= count <= ring && (count == 1 || count == ring) && i < count
    requires j == i || j == NextLive(i, ring)
    ensures i + 1 in Share(ring, count, j)
  {
    var ids := Share(ring, count, j);
    if count == 1 {
      assert ids[0] == 1;
    } else {
      assert ids[0] == i + 1 || ids[1] == i + 1;
    }
  }

  /** The fragments node n is sent, in order. */
  lemma HeldOnRing(ring: nat, f: File, n: nat)
    requires ring >= 2 && 1 <= n <= ring
    ensures Held(RingTable(ring, f), Pieces(ring, f), n) ==
            Slots(Pieces(ring, f), Share(ring, |Pieces(ring, f)|, n - 1))
  {
    var nodes := FirstNodes(ring);
    assert nodes[n - 1] == n;
    assert Spreads(nodes, Pieces(ring, f));
    HeldIsShare(nodes, Pieces(ring, f), n - 1);
  }

  /** What node n gains with a file. */
  lemma GainOnRing(ring: nat, f: File, fileId: nat, n: nat)
    requires ring >= 2 && 1 <= n <= ring
    ensures var ids := Share(ring, |Pieces(ring, f)|, n - 1);
            Gain(ring, f, fileId, n) ==
            if ids == [] && n != ring then [] else [WithSlots(MetaFor(f, fileId, ring), Slots(Pieces(ring, f), ids))]
  {
    HeldOnRing(ring, f, n);
  }

  lemma ShareServes(nodes: nat, pieces: seq<seq<byte>>, m: Meta, i: nat, j: nat)
    requires 1 <= |pieces| <= nodes && (|pieces| == 1 || |pieces| == nodes) && i < |pieces|
    requires j == i || j == NextLive(i, nodes)
    ensures var slots := Slots(pieces, Share(nodes, |pieces|, j));
            slots != [] && ServedSlot(WithSlots(m, slots), i + 1) == Some(pieces[i])
  {
    ShareHas(nodes, |pieces|, i, j);
    SlotsServe(m, pieces, Share(nodes, |pieces|, j), i + 1);
  }

  /** Wherever a file has been spread, the i-th node serves fragment i + 1, and so does the one after it. */
  lemma LiveServes(live: seq<nat>, pieces: seq<seq<byte>>, m: Meta, me: nat, i: nat, j: nat)
    requires Spreads(live, pieces) && i < |pieces| && (j == i || j == NextLive(i, |live|))
    ensures var gain := Gained(m, FileTable(live, pieces), pieces, me, live[j]);
            gain != [] && ServedSlot(gain[0], i + 1) == Some(pieces[i])
  {
    HeldIsShare(live, pieces, j);
    ShareServes(|live|, pieces, m, i, j);
  }

  lemma HoldersServe(ring: nat, f: File, fileId: nat, i: nat, n: nat)
    requires ring >= 2 && i < |Pieces(ring, f)| && (n == i + 1 || n == Succ(ring, i + 1))
    ensures Gain(ring, f, fileId, n) != []
    ensures ServedSlot(Gain(ring, f, fileId, n)[0], i + 1) == Some(Pieces(ring, f)[i])
  {
    var live := FirstNodes(ring);
    assert live[n - 1] == n && Spreads(live, Pieces(ring, f));
    LiveServes(live, Pieces(ring, f), MetaFor(f, fileId, ring), ring, i, n - 1);
  }

  lemma PieceIsFragment(ring: nat, f: File, i: nat)
    requires ring >= 1 && i < |Pieces(ring, f)|
    ensures Pieces(ring, f)[i] == Fragment(f.data, |Pieces(ring, f)|, i + 1)
  {
    var pieces := Pieces(ring, f);
    assert pieces[i + 1 - 1] == Fragment(f.data, |pieces|, i + 1);
  }
}
