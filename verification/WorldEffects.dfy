/** What storing a file leaves on every node, in every history. */
module WorldEffects {
  import opened Types
  import opened Placement
  import opened Storage
  import opened Layout
  import opened Cluster
  import opened PutPhase
  import opened Losses
  import opened Degraded
  import opened Hangs
  import opened Effects
  import opened World
  import opened WorldViews
  import opened WorldRuns
  import opened WorldTheorems
  import opened WorldHangs
  import Ring
  import RingRuns

  // ---------------------------------------------------------------- which nodes

  /** 1..k without one of them. */
  function AllBut(lost: nat, k: nat): (nodes: seq<nat>)
    requires lost >= 1
    ensures |nodes| == if k < lost then k else k - 1
    ensures forall j :: 0 <= j < |nodes| ==> nodes[j] == if j + 1 < lost then j + 1 else j + 2
  {
    seq(if k < lost then k else k - 1, j requires 0 <= j => if j + 1 < lost then j + 1 else j + 2)
  }

  lemma AllButLast(lost: nat, k: nat)
    requires lost >= 1 && k >= 1
    ensures AllBut(lost, k) == if k == lost then AllBut(lost, k - 1) else AllBut(lost, k - 1) + [k]
  {
  }

  lemma LiveLast(v: IndexView, ring: nat, lost: nat, k: nat)
    requires LossView(v, ring, lost) && 1 <= k <= ring
    ensures LiveUpTo(v, k) == if k == lost then LiveUpTo(v, k - 1) else LiveUpTo(v, k - 1) + [k]
  {
    UsableIff(v, ring, lost, k);
  }

  lemma {:induction false} LiveIsAllBut(v: IndexView, ring: nat, lost: nat, k: nat)
    requires LossView(v, ring, lost) && k <= ring
    ensures Same(LiveUpTo(v, k), AllBut(lost, k))
  {
    if k > 0 {
      LiveIsAllBut(v, ring, lost, k - 1);
      LiveLast(v, ring, lost, k);
      AllButLast(lost, k);
    }
  }

  /** New files go to all nodes that are alive, in ascending order; but if the index's predecessor is dead, the index
      leaves itself out. */
  lemma NewFileNodesAre(net: Ring.Net)
    requires RingRuns.Reachable(net) && RingRuns.Settled(net) && net.dead < net.size && net.size >= 2
    ensures |NewFileNodes(net)| ==
            if net.dead == 0 then net.size else if net.dead == net.size - 1 then net.size - 2 else net.size - 1
    ensures forall j :: 0 <= j < |NewFileNodes(net)| ==>
              NewFileNodes(net)[j] == if net.dead == 0 || j + 1 < net.dead then j + 1 else j + 2
  {
    if net.dead != 0 {
      BereavedView(net);
      LiveIsAllBut(View(net), net.size, net.dead, net.size);
    }
  }

  // ---------------------------------------------------------------- any history

  /** The fan-out of a put ends with these stores, under an id that nobody has used; and if the put succeeds, it has no
      other effect on what the nodes hold. */
  ghost predicate EndsWith(data: System, v: IndexView, f: File, id: nat, after: Stores) {
    && CanPlace(data, v, f) && FreshEverywhere(data.stores, id)
    && PutRun(data, v, f).stores == after
    && (PutFile(data, v, f).Some? ==> PutFile(data, v, f).value.stores == after)
  }

  /** Storing f on these nodes leaves there what Effects.LeftAt says. */
  ghost predicate PutLeaves(data: System, v: IndexView, live: seq<nat>, f: File, id: nat) {
    exists after :: EndsWith(data, v, f, id, after) && Leaves(data.stores, after, live, v.me, f, id)
  }

  lemma PutEndsWith(s: System, v: IndexView, f: File)
    requires CanPlace(s, v, f) && FreshEverywhere(s.stores, |s.stores[v.me]| + 1)
    ensures EndsWith(s, v, f, |s.stores[v.me]| + 1, PutRun(s, v, f).stores)
  {
    var m := MetaFor(f, |s.stores[v.me]| + 1, v.netSize);
    FanoutRunCompletes(Started(s.stores, v.me, m), v, m, PiecesFor(f, v.netSize), TableFor(v, f));
  }

  lemma PutLeavesOn(s: System, v: IndexView, live: seq<nat>, f: File, id: nat)
    requires CanPlace(s, v, f) && |live| == v.netSize && FansOut(live, PiecesFor(f, v.netSize), v.me)
    requires TableFor(v, f) == FileTable(live, PiecesFor(f, v.netSize)) && |f.data| % 4096 != 0
    requires AllReachable(s.stores, v, TableFor(v, f)) && id == |s.stores[v.me]| + 1 && FreshEverywhere(s.stores, id)
    ensures PutLeaves(s, v, live, f, id)
  {
    FanoutLeaves(s.stores, v, live, f, id);
    PutEndsWith(s, v, f);
  }

  lemma LeavesWhenIntact(data: System, v: IndexView, ring: nat, files: seq<File>, f: File)
    requires FullView(v, ring) && Same(data, Deposited(ring, files)) && |f.data| % 4096 != 0
    ensures PutLeaves(data, v, FirstNodes(ring), f, |files| + 1)
  {
    CanPlaceInRing(data, v, ring, files, f);
    NextIdIsFresh(data, ring, files);
    RingFansOut(ring, f);
    PutLeavesOn(data, v, FirstNodes(ring), f, |files| + 1);
  }

  lemma LeavesWhenReduced(data: System, v: IndexView, ring: nat, lost: nat, files: seq<File>, f: File)
    requires LossView(v, ring, lost) && Catalogue(data, ring, files) && data.stores.Keys == RingNodes(ring) - {lost}
    requires CanPlace(data, v, f) && |f.data| % 4096 != 0
    ensures PutLeaves(data, v, Spots(v, ring, lost), f, |files| + 1)
  {
    CatalogueFresh(data, ring, files);
    PlacedOnSpots(v, ring, lost, f);
    SpotsUsable(v, ring, lost);
    SpotsStored(data.stores, v, ring, lost);
    SpotsFanOut(v, ring, lost, f);
    TargetsReachable(data.stores, v, Spots(v, ring, lost), PiecesFor(f, v.netSize));
    PutLeavesOn(data, v, Spots(v, ring, lost), f, |files| + 1);
  }

  lemma LeavesBeforeLoss(w: World, f: File)
    requires RingRuns.Reachable(w.net) && RingRuns.Settled(w.net) && w.net.dead == 0 && Intact(w)
    requires |f.data| % 4096 != 0
    ensures PutLeaves(w.data, View(w.net), NewFileNodes(w.net), f, |w.files| + 1)
  {
    FormedView(w.net);
    LeavesWhenIntact(w.data, View(w.net), w.net.size, w.files, f);
  }

  lemma LeavesAfterLoss(w: World, stored: System, f: File)
    requires RingRuns.Reachable(w.net) && RingRuns.Settled(w.net) && 0 < w.net.dead < w.net.size
    requires GrownSince(w, stored) && w.early <= |w.files| && |f.data| % 4096 != 0
    ensures PutLeaves(w.data, View(w.net), NewFileNodes(w.net), f, |w.files| + 1)
  {
    BereavedView(w.net);
    PutsWhenReduced(w, stored, f);
    LeavesWhenReduced(w.data, View(w.net), w.net.size, w.net.dead, w.files, f);
  }

  /** Whenever the ring is at rest with its first index alive and a file has been uploaded to it, this is what every
      node holds afterwards, whether the file is stored, or somebody hangs, or the index is lost: what it held before,
      and exactly what Effects.LeftAt says. */
  lemma EveryPutLeaves(ring: nat, w: World, f: File)
    requires 2 <= ring <= 255 && Attainable(ring, w) && RingRuns.Settled(w.net) && w.net.size >= 1
    requires w.net.dead != w.net.size && |w.files| < 100 && |f.data| < 0x8000_0000 && |f.data| % 4096 != 0
    ensures PutLeaves(w.data, View(w.net), NewFileNodes(w.net), f, |w.files| + 1)
  {
    var a, stored := AttainableSound(ring, w);
    if w.net.dead == 0 {
      LeavesBeforeLoss(w, f);
    } else {
      GrownSoFar(w, stored);
      LeavesAfterLoss(w, stored, f);
    }
  }

  // ---------------------------------------------------------------- which files are split

  /** This store has something of the file with this id. */
  predicate HasPart(store: FileStore, id: nat) {
    Lookup(store, id).Some? && (Lookup(store, id).value.s0.id != 0 || Lookup(store, id).value.s1.id != 0)
  }

  /** This store has the whole file in its first slot, and perhaps once more in the second. */
  predicate HasAll(store: FileStore, id: nat, data: seq<byte>) {
    Lookup(store, id).Some? && Lookup(store, id).value.s0 == Slot(1, data)
  }

  lemma PartGained(before: FileStore, gain: FileStore, id: nat)
    requires NotIn(before, id) && |gain| <= 1 && (gain != [] ==> gain[0].fileId == id)
    ensures Lookup(before + gain, id) == First(gain)
  {
    LookupAppend(before, gain, id);
  }

  /** Who has what of a file that has been stored on these nodes. */
  ghost predicate KeptBy(stores: Stores, live: seq<nat>, f: File, id: nat) {
    && |live| >= 1
    && forall node :: node in stores ==>
         if |f.data| <= 100 || |f.data| <= |live| then
           if node == live[0] || (|live| >= 2 && node == live[1]) then HasAll(stores[node], id, f.data)
           else !HasPart(stores[node], id)
         else HasPart(stores[node], id) <==> node in live
  }

  lemma KeptAt(before: Stores, after: Stores, live: seq<nat>, me: nat, f: File, id: nat, node: nat, j: nat)
    requires Leaves(before, after, live, me, f, id) && FreshEverywhere(before, id)
    requires node in before && j < |live| && live[j] == node
    ensures Lookup(after[node], id) == First(LeftAt(live, me, f, id, j))
  {
    assert NotIn(before[node], id);
    PartGained(before[node], LeftAt(live, me, f, id, j), id);
  }

  lemma KeptElsewhere(before: Stores, after: Stores, live: seq<nat>, me: nat, f: File, id: nat, node: nat)
    requires Leaves(before, after, live, me, f, id) && FreshEverywhere(before, id)
    requires node in before && node !in live
    ensures !HasPart(after[node], id)
  {
    assert NotIn(before[node], id);
    PartGained(before[node], if node == me then Box(f, id, |live|, FREE, FREE) else [], id);
  }

  lemma LeftIsKept(before: Stores, after: Stores, live: seq<nat>, me: nat, f: File, id: nat)
    requires Leaves(before, after, live, me, f, id) && FreshEverywhere(before, id) && Distinct(live)
    requires |live| >= 1
    requires |f.data| <= 100 || |f.data| <= |live| || |live| == 1 || |f.data| / |live| % 4096 != 0
    ensures KeptBy(after, live, f, id)
  {
    forall node | node in after
      ensures if |f.data| <= 100 || |f.data| <= |live| then
                if node == live[0] || (|live| >= 2 && node == live[1]) then HasAll(after[node], id, f.data)
                else !HasPart(after[node], id)
              else HasPart(after[node], id) <==> node in live
    {
      if node in live {
        var j :| 0 <= j < |live| && live[j] == node;
        KeptAt(before, after, live, me, f, id, node, j);
        assert node == live[0] <==> j == 0;
        assert |live| >= 2 ==> (node == live[1] <==> j == 1);
      } else {
        KeptElsewhere(before, after, live, me, f, id, node);
      }
    }
  }

  lemma NewFileNodesDistinct(net: Ring.Net)
    requires RingRuns.Reachable(net) && RingRuns.Settled(net) && net.dead < net.size && net.size >= 2
    ensures Distinct(NewFileNodes(net))
  {
    NewFileNodesAre(net);
  }

  lemma StoredNotLost(data: System, v: IndexView, live: seq<nat>, f: File)
    requires PutGoes(data, v, live, f) && PutFile(data, v, f).Some?
    ensures |f.data| <= 100 || |f.data| <= |live| || |live| == 1 || |f.data| / |live| % 4096 != 0
  {
    var m := MetaFor(f, |data.stores[v.me]| + 1, v.netSize);
    BlockedByHung(Started(data.stores, v.me, m), v, m, PiecesFor(f, v.netSize), TableFor(v, f));
    PiecesCount(f, |live|);
  }

  lemma KeepsFrom(data: System, v: IndexView, live: seq<nat>, f: File, id: nat)
    requires CanPlace(data, v, f) && PutFile(data, v, f).Some? && Distinct(live) && |live| >= 1
    requires PutLeaves(data, v, live, f, id)
    requires |f.data| <= 100 || |f.data| <= |live| || |live| == 1 || |f.data| / |live| % 4096 != 0
    ensures KeptBy(PutFile(data, v, f).value.stores, live, f, id)
  {
    var after :| EndsWith(data, v, f, id, after) && Leaves(data.stores, after, live, v.me, f, id);
    LeftIsKept(data.stores, after, live, v.me, f, id);
  }

  lemma KeepsIf(data: System, v: IndexView, live: seq<nat>, f: File, id: nat)
    requires CanPlace(data, v, f) && PutFile(data, v, f).Some? && Distinct(live) && PutLeaves(data, v, live, f, id)
    ensures PutGoes(data, v, live, f) ==> KeptBy(PutFile(data, v, f).value.stores, live, f, id)
  {
    if PutGoes(data, v, live, f) {
      StoredNotLost(data, v, live, f);
      KeepsFrom(data, v, live, f, id);
    }
  }

  /** Which files are split, in every history: after storing a file of at most 100 bytes, or of no more bytes than there
      are nodes to store it on, the first two of these nodes have all of it and nobody else has any of it; of any other
      file every one of these nodes has a part, and nobody else. */
  lemma EveryPutKeeps(ring: nat, w: World, f: File)
    requires 2 <= ring <= 255 && Attainable(ring, w) && RingRuns.Settled(w.net) && w.net.size >= 1
    requires Possible(w, Put(f))
    ensures KeptBy(Happen(w, Put(f)).data.stores, NewFileNodes(w.net), f, |w.files| + 1)
  {
    var a, stored := AttainableSound(ring, w);
    EveryPutEnds(ring, w, f);
    EveryPutLeaves(ring, w, f);
    NewFileNodesDistinct(w.net);
    KeepsIf(w.data, View(w.net), NewFileNodes(w.net), f, |w.files| + 1);
  }

  // ---------------------------------------------------------------- the two failures

  /** The pairs of fragment ids in the two slots of every container of a store. */
  function SlotIds(store: FileStore): seq<(nat, nat)> {
    seq(|store|, i requires 0 <= i < |store| => (store[i].s0.id, store[i].s1.id))
  }

  predicate SlotsHold(stores: Stores, n: nat, ids: seq<(nat, nat)>) {
    n in stores && SlotIds(stores[n]) == ids
  }

  /** What four nodes have in their slots. */
  predicate FourHold(stores: Stores, ids1: seq<(nat, nat)>, ids2: seq<(nat, nat)>, ids3: seq<(nat, nat)>,
                     ids4: seq<(nat, nat)>)
  {
    && stores.Keys == {1, 2, 3, 4}
    && SlotsHold(stores, 1, ids1) && SlotsHold(stores, 2, ids2) && SlotsHold(stores, 3, ids3)
    && SlotsHold(stores, 4, ids4)
  }

  /** Storing this file leaves this in the slots of four nodes. */
  ghost predicate FillsSlots(data: System, v: IndexView, f: File, ids1: seq<(nat, nat)>, ids2: seq<(nat, nat)>,
                             ids3: seq<(nat, nat)>, ids4: seq<(nat, nat)>)
  {
    CanPlace(data, v, f) && FourHold(PutRun(data, v, f).stores, ids1, ids2, ids3, ids4)
  }

  lemma FourEmpty(data: System, n: nat)
    requires n == 4 && Same(data, Deposited(n, []))
    ensures data.stores.Keys == {1, 2, 3, 4}
    ensures data.stores[1] == data.stores[2] == data.stores[3] == data.stores[4] == []
  {
    StoredLayout(data, n, []);
  }

  lemma IdsLeft(before: Stores, after: Stores, live: seq<nat>, me: nat, f: File, id: nat, j: nat)
    requires Leaves(before, after, live, me, f, id) && j < |live| && live[j] in before && before[live[j]] == []
    ensures SlotIds(after[live[j]]) == SlotIds(LeftAt(live, me, f, id, j))
  {
    assert before[live[j]] + LeftAt(live, me, f, id, j) == LeftAt(live, me, f, id, j);
  }

  lemma BoxIds(f: File, id: nat, n: nat, s0: Slot, s1: Slot)
    ensures SlotIds(Box(f, id, n, s0, s1)) == [(s0.id, s1.id)]
  {
  }

  lemma PartId(f: File, n: nat, i: nat)
    requires i < n
    ensures Part(f, n, i).id == i + 1
  {
  }

  lemma LostIds(live: seq<nat>, n: nat, f: File, j: nat)
    requires n == |live| == 4 && |f.data| == 16385 && live[n - 1] == n && j < n
    requires forall k :: 0 <= k < n - 1 ==> live[k] != n
    ensures SlotIds(LeftAt(live, n, f, 1, j)) == if j == 2 then [] else [(0, 0)]
  {
    BoxIds(f, 1, n, FREE, FREE);
  }

  lemma LackingIds(live: seq<nat>, n: nat, f: File, j: nat)
    requires n == |live| == 4 && |f.data| == 16381 && live[n - 1] == n && j < n
    requires forall k :: 0 <= k < n - 1 ==> live[k] != n
    ensures SlotIds(LeftAt(live, n, f, 1, j)) == if j == 0 then [(1, 0)] else [(j, j + 1)]
  {
    PartId(f, n, j);
    PartId(f, n, n - 1);
    PartId(f, n, n - 2);
    if j == 0 {
      BoxIds(f, 1, n, Part(f, n, 0), FREE);
    } else {
      PartId(f, n, j - 1);
      BoxIds(f, 1, n, Part(f, n, j - 1), Part(f, n, j));
    }
  }

  lemma IdsAt(before: Stores, after: Stores, live: seq<nat>, n: nat, f: File, j: nat)
    requires n == 4 && live == FirstNodes(n) && j < n && j + 1 in before && before[j + 1] == []
    ensures Leaves(before, after, live, n, f, 1) ==>
              && (|f.data| == 16385 ==> SlotsHold(after, j + 1, if j == 2 then [] else [(0, 0)]))
              && (|f.data| == 16381 ==> SlotsHold(after, j + 1, if j == 0 then [(1, 0)] else [(j, j + 1)]))
  {
    if Leaves(before, after, live, n, f, 1) {
      assert live[j] == j + 1;
      IdsLeft(before, after, live, n, f, 1, j);
      if |f.data| == 16385 {
        LostIds(live, n, f, j);
      }
      if |f.data| == 16381 {
        LackingIds(live, n, f, j);
      }
    }
  }

  lemma FourIds(before: Stores, after: Stores, live: seq<nat>, n: nat, f: File, id: nat)
    requires n == 4 && live == FirstNodes(n) && id == 1 && after.Keys == before.Keys == {1, 2, 3, 4}
    requires before[1] == before[2] == before[3] == before[4] == []
    ensures Leaves(before, after, live, n, f, id) && |f.data| == 16385 ==>
              FourHold(after, [(0, 0)], [(0, 0)], [], [(0, 0)])
    ensures Leaves(before, after, live, n, f, id) && |f.data| == 16381 ==>
              FourHold(after, [(1, 0)], [(1, 2)], [(2, 3)], [(3, 4)])
  {
    IdsAt(before, after, live, n, f, 0);
    IdsAt(before, after, live, n, f, 1);
    IdsAt(before, after, live, n, f, 2);
    IdsAt(before, after, live, n, f, 3);
  }

  lemma FourLeft(data: System, v: IndexView, live: seq<nat>, n: nat, f: File, id: nat)
    requires n == 4 && live == FirstNodes(n) && id == 1 && Same(data, Deposited(n, [])) && v.me == n
    ensures PutLeaves(data, v, live, f, id) ==>
              && (|f.data| == 16385 ==> FillsSlots(data, v, f, [(0, 0)], [(0, 0)], [], [(0, 0)]))
              && (|f.data| == 16381 ==> FillsSlots(data, v, f, [(1, 0)], [(1, 2)], [(2, 3)], [(3, 4)]))
  {
    FourEmpty(data, n);
    if PutLeaves(data, v, live, f, id) {
      var after :| EndsWith(data, v, f, id, after) && Leaves(data.stores, after, live, v.me, f, id);
      FourIds(data.stores, after, live, n, f, id);
    }
  }

  lemma FourIntact(ring: nat, w: World)
    requires ring == 4 && Attainable(ring, w) && RingRuns.Settled(w.net) && w.net.dead == 0 && w.files == []
    requires w.net.size >= 1
    ensures NewFileNodes(w.net) == FirstNodes(ring) && Same(w.data, Deposited(ring, [])) && View(w.net).me == ring
  {
    var a, stored := AttainableSound(ring, w);
    FormedView(w.net);
  }

  lemma FourFilled(ring: nat, w: World, f: File)
    requires ring == 4 && Attainable(ring, w) && RingRuns.Settled(w.net) && w.net.dead == 0 && w.files == []
    requires w.net.size >= 1 && |f.data| < 0x8000_0000 && |f.data| % 4096 != 0
    ensures |f.data| == 16385 ==> FillsSlots(w.data, View(w.net), f, [(0, 0)], [(0, 0)], [], [(0, 0)])
    ensures |f.data| == 16381 ==> FillsSlots(w.data, View(w.net), f, [(1, 0)], [(1, 2)], [(2, 3)], [(3, 4)])
  {
    FourIntact(ring, w);
    EveryPutLeaves(ring, w, f);
    FourLeft(w.data, View(w.net), NewFileNodes(w.net), ring, f, |w.files| + 1);
  }

  /** The two files of WorldHangs.HangsHappen, on four nodes: of 16385 bytes nobody gets anything, but nodes 1 and 2
      have opened a container, and so has the index; of 16381 bytes node 1 lacks the fourth fragment, and everybody
      else has two. */
  lemma HangsLeave() returns (w: World)
    ensures Attainable(4, w) && RingRuns.Settled(w.net) && w.net.size == 4 && w.net.dead == 0
    ensures FillsSlots(w.data, View(w.net), Plain(16385), [(0, 0)], [(0, 0)], [], [(0, 0)])
    ensures FillsSlots(w.data, View(w.net), Plain(16381), [(1, 0)], [(1, 2)], [(2, 3)], [(3, 4)])
  {
    w := FormedStart(4);
    FourFilled(4, w, Plain(16385));
    FourFilled(4, w, Plain(16381));
  }
}
