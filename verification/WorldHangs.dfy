/** How storing a file can fail in the whole system: in every history, who hangs and whether the index is lost. */
module WorldHangs {
  import opened Types
  import opened Split
  import opened Placement
  import opened Storage
  import opened Cluster
  import opened PutPhase
  import opened Losses
  import opened Degraded
  import opened Hangs
  import opened World
  import opened WorldViews
  import opened WorldRuns
  import opened WorldTheorems
  import Ring
  import RingRuns

  /** The nodes over which the first index spreads a new file, once the ring is at rest. */
  function NewFileNodes(net: Ring.Net): seq<nat>
    requires net.size >= 1
  {
    if net.dead == 0 then FirstNodes(net.size) else Spots(View(net), net.size, net.dead)
  }

  /** What a put of f comes to now. */
  ghost predicate PutGoes(data: System, v: IndexView, live: seq<nat>, f: File) {
    && |live| >= 1 && CanPlace(data, v, f)
    && (|f.data| % 4096 != 0 ==> PutEnds(PutRun(data, v, f), live, f, v.me))
    && (PutFile(data, v, f).Some? <==> |f.data| % 4096 != 0 && PutRun(data, v, f).hung == {})
  }

  lemma PutGoesWhenIntact(data: System, v: IndexView, ring: nat, files: seq<File>, f: File)
    requires FullView(v, ring) && Same(data, Deposited(ring, files))
    ensures PutGoes(data, v, FirstNodes(ring), f)
  {
    CanPlaceInRing(data, v, ring, files, f);
    RingFansOut(ring, f);
    PutRunCompletes(data, v, f);
    if |f.data| % 4096 != 0 {
      PutRunEnds(data, v, FirstNodes(ring), f);
    }
  }

  lemma PutGoesWhenReduced(data: System, v: IndexView, ring: nat, lost: nat, f: File)
    requires LossView(v, ring, lost) && CanPlace(data, v, f)
    ensures PutGoes(data, v, Spots(v, ring, lost), f)
  {
    PlacedOnSpots(v, ring, lost, f);
    SpotsFanOut(v, ring, lost, f);
    PutRunCompletes(data, v, f);
    if |f.data| % 4096 != 0 {
      PutRunEnds(data, v, Spots(v, ring, lost), f);
    }
  }

  /** Whenever the ring is at rest with its first index alive, this is how storing any file ends. If its size is a
      multiple of 4096, the upload never completes. Otherwise nobody hangs and the file is stored; or the holders of
      the last fragment hang, the index excepted, and the index goes on; or, exactly if the file is split and the
      common size of its fragments is a multiple of 4096, the holders of the first fragment hang and the index is
      lost with them. */
  lemma EveryPutEnds(ring: nat, w: World, f: File)
    requires 2 <= ring <= 255 && Attainable(ring, w) && RingRuns.Settled(w.net) && w.net.size >= 1
    requires w.net.dead != w.net.size && |w.files| < 100 && |f.data| < 0x8000_0000
    ensures PutGoes(w.data, View(w.net), NewFileNodes(w.net), f)
    ensures |NewFileNodes(w.net)| == View(w.net).netSize && View(w.net).me == ring
  {
    var a, stored := AttainableSound(ring, w);
    if w.net.dead == 0 {
      FormedView(w.net);
      PutGoesWhenIntact(w.data, View(w.net), w.net.size, w.files, f);
    } else {
      GrownSoFar(w, stored);
      PutsWhenReduced(w, stored, f);
      BereavedView(w.net);
      PutGoesWhenReduced(w.data, View(w.net), w.net.size, w.net.dead, f);
      SpotsUsable(View(w.net), w.net.size, w.net.dead);
    }
  }

  /** A file of this many bytes. */
  function Plain(size: nat): (f: File)
    ensures |f.data| == size
  {
    File("x", seq(size, _ => 0))
  }

  lemma FourNodes(run: FanoutState, ring: nat, size: nat)
    requires ring == 4 && 4 * 4095 <= size <= 5 * 4096 && PutEnds(run, FirstNodes(ring), Plain(size), ring)
    ensures size == 4 * 4096 + 1 ==> run.blocked && run.hung == {1, 2}
    ensures size == 4 * 4095 + 1 ==> !run.blocked && run.hung == {1}
  {
    var live := FirstNodes(ring);
    assert live[0] == 1 && live[1] == 2 && live[ring - 1] == 4;
    assert FragmentCount(size, ring) == 4;
  }

  /** This is what storing so many bytes does. */
  ghost predicate Does(data: System, v: IndexView, size: nat, hung: set<nat>, blocked: bool) {
    && CanPlace(data, v, Plain(size))
    && PutRun(data, v, Plain(size)).hung == hung && PutRun(data, v, Plain(size)).blocked == blocked
  }

  lemma DoesInFour(data: System, v: IndexView, ring: nat, size: nat)
    requires ring == 4 && v.me == ring && (size == 4 * 4096 + 1 || size == 4 * 4095 + 1)
    ensures PutGoes(data, v, FirstNodes(ring), Plain(size)) ==>
              if size == 4 * 4096 + 1 then Does(data, v, size, {1, 2}, true) else Does(data, v, size, {1}, false)
  {
    if PutGoes(data, v, FirstNodes(ring), Plain(size)) {
      FourNodes(PutRun(data, v, Plain(size)), ring, size);
    }
  }

  /** Both ways of failing occur: four nodes are to store 16385 bytes, and nodes 1 and 2 hang and the index is lost; or
      16381 bytes, and node 1 hangs and the index goes on. */
  lemma HangsHappen() returns (w: World)
    ensures Attainable(4, w) && RingRuns.Settled(w.net) && w.net.size == 4 && w.net.dead == 0
    ensures Does(w.data, View(w.net), 4 * 4096 + 1, {1, 2}, true) && Does(w.data, View(w.net), 4 * 4095 + 1, {1}, false)
  {
    w := FormedStart(4);
    EveryPutEnds(4, w, Plain(4 * 4096 + 1));
    EveryPutEnds(4, w, Plain(4 * 4095 + 1));
    DoesInFour(w.data, View(w.net), 4, 4 * 4096 + 1);
    DoesInFour(w.data, View(w.net), 4, 4 * 4095 + 1);
  }
}
