/** What becomes of a fan-out whose transfers do not all complete: exactly who hangs, and exactly when the index is
    lost as well. A piece whose size is a multiple of 4096 leaves its receiver waiting; the index goes on, until it
    addresses a node that is still waiting. */
module Hangs {
  import opened Types
  import opened Split
  import opened Transport
  import opened Placement
  import opened Storage
  import opened Layout
  import opened Cluster
  import opened PutPhase
  import opened Losses
  import opened Degraded

  // ---------------------------------------------------------------- any table

  /** Somebody hangs over one of these entries, and it is node n. */
  ghost predicate HangsOver(table: seq<Pointer>, me: nat, n: nat) {
    exists k :: 0 <= k < |table| && !Transportable(table[k], me) && table[k].node == n
  }

  /** Entry k is addressed to a node that hangs over an earlier one. */
  ghost predicate AddressesHung(table: seq<Pointer>, me: nat, k: nat)
    requires k < |table|
  {
    table[k].node != me && HangsOver(table[..k], me, table[k].node)
  }

  ghost predicate SomeAddressHung(table: seq<Pointer>, me: nat) {
    exists k: nat :: k < |table| && AddressesHung(table, me, k)
  }

  /** What a fan-out over these entries comes to, as far as hanging goes. */
  ghost predicate HangsAsPlanned(st: FanoutState, table: seq<Pointer>, me: nat) {
    && (st.blocked <==> SomeAddressHung(table, me))
    && (!st.blocked ==> forall n :: n in st.hung <==> HangsOver(table, me, n))
  }

  lemma HangsOverLast(front: seq<Pointer>, p: Pointer, me: nat, n: nat)
    ensures HangsOver(front + [p], me, n) <==> HangsOver(front, me, n) || (!Transportable(p, me) && p.node == n)
  {
    var table := front + [p];
    assert table[|front|] == p && forall k :: 0 <= k < |front| ==> table[k] == front[k];
  }

  lemma AddressHungLast(front: seq<Pointer>, p: Pointer, me: nat)
    ensures SomeAddressHung(front + [p], me) <==>
            SomeAddressHung(front, me) || (p.node != me && HangsOver(front, me, p.node))
  {
    var table := front + [p];
    assert table[..|front|] == front && table[|front|] == p;
    forall k: nat | k < |front|
      ensures AddressesHung(table, me, k) <==> AddressesHung(front, me, k)
    {
      assert table[..k] == front[..k] && table[k] == front[k];
    }
    if p.node != me && HangsOver(front, me, p.node) {
      assert AddressesHung(table, me, |front|);
    }
    if SomeAddressHung(front, me) {
      var k: nat :| k < |front| && AddressesHung(front, me, k);
      assert AddressesHung(table, me, k);
    }
  }

  lemma TargetIsNode(stores: Stores, v: IndexView, p: Pointer)
    requires CanReach(stores, v, p.node)
    ensures Target(v, p) == p.node
  {
  }

  /** One entry, in terms of who hangs. */
  lemma SendNextHangs(st: FanoutState, v: IndexView, m: Meta, p: Pointer, piece: seq<byte>)
    requires Target(v, p) == p.node && p.node in st.stores && p.size == |piece|
    ensures var st' := SendNext(st, v, m, p, piece);
            && st'.stores.Keys == st.stores.Keys
            && (st'.blocked <==> st.blocked || (p.node != v.me && p.node in st.hung))
            && st'.hung == if st'.blocked || Transportable(p, v.me) then st.hung else st.hung + {p.node}
  {
    TransferCompletes(piece);
  }

  /** The same nodes as before, and those hang who should. */
  ghost predicate HangsSoFar(st: FanoutState, nodes: set<nat>, table: seq<Pointer>, me: nat) {
    st.stores.Keys == nodes && HangsAsPlanned(st, table, me)
  }

  lemma HangsStep(st: FanoutState, stores: Stores, v: IndexView, m: Meta, pieces: seq<seq<byte>>, front: seq<Pointer>,
                  p: Pointer)
    requires GoodPointer(p, pieces) && CanReach(stores, v, p.node)
    ensures HangsSoFar(st, stores.Keys, front, v.me) ==>
              HangsSoFar(SendNext(st, v, m, p, pieces[p.fragment - 1]), stores.Keys, front + [p], v.me)
  {
    if HangsSoFar(st, stores.Keys, front, v.me) {
      TargetIsNode(stores, v, p);
      SendNextHangs(st, v, m, p, pieces[p.fragment - 1]);
      AddressHungLast(front, p, v.me);
      forall n
        ensures HangsOver(front + [p], v.me, n) <==>
                HangsOver(front, v.me, n) || (!Transportable(p, v.me) && p.node == n)
      {
        HangsOverLast(front, p, v.me, n);
      }
    }
  }

  /** The last entry of a table. */
  lemma HangsLast(st: FanoutState, stores: Stores, v: IndexView, m: Meta, pieces: seq<seq<byte>>, table: seq<Pointer>)
    requires table != [] && GoodPointer(table[|table| - 1], pieces) && CanReach(stores, v, table[|table| - 1].node)
    ensures HangsSoFar(st, stores.Keys, table[..|table| - 1], v.me) ==>
              HangsSoFar(SendNext(st, v, m, table[|table| - 1], pieces[table[|table| - 1].fragment - 1]), stores.Keys,
                         table, v.me)
  {
    FrontLast(table);
    HangsStep(st, stores, v, m, pieces, table[..|table| - 1], table[|table| - 1]);
  }

  lemma HangsSame(st: FanoutState, st': FanoutState, nodes: set<nat>, table: seq<Pointer>, me: nat)
    requires Same(st, st')
    ensures HangsSoFar(st', nodes, table, me) ==> HangsSoFar(st, nodes, table, me)
  {
  }

  lemma RunHangsStep(stores: Stores, v: IndexView, m: Meta, pieces: seq<seq<byte>>, table: seq<Pointer>)
    requires table != [] && GoodTable(table, pieces) && v.me in stores && AllReachable(stores, v, table)
    ensures var front := table[..|table| - 1];
            && GoodTable(front, pieces) && AllReachable(stores, v, front)
            && (HangsSoFar(FanoutRun(stores, v, m, pieces, front), stores.Keys, front, v.me) ==>
                  HangsSoFar(FanoutRun(stores, v, m, pieces, table), stores.Keys, table, v.me))
  {
    var front, last := table[..|table| - 1], table[|table| - 1];
    PrefixGood(stores, v, pieces, table);
    FanoutLast(stores, v, m, pieces, table);
    var st := FanoutRun(stores, v, m, pieces, front);
    HangsLast(st, stores, v, m, pieces, table);
    HangsSame(FanoutRun(stores, v, m, pieces, table), SendNext(st, v, m, last, pieces[last.fragment - 1]), stores.Keys,
              table, v.me);
  }

  /** For any table: the index is lost exactly if some entry is addressed to a node that hangs over an earlier one, and
      as long as it is not, exactly the receivers of untransportable pieces hang. */
  lemma {:induction false} RunHangs(stores: Stores, v: IndexView, m: Meta, pieces: seq<seq<byte>>, table: seq<Pointer>)
    requires GoodTable(table, pieces) && v.me in stores && AllReachable(stores, v, table)
    ensures HangsSoFar(FanoutRun(stores, v, m, pieces, table), stores.Keys, table, v.me)
  {
    if table != [] {
      RunHangsStep(stores, v, m, pieces, table);
      RunHangs(stores, v, m, pieces, table[..|table| - 1]);
    }
  }

  /** An index that is lost stays lost, and nothing more happens. */
  lemma {:induction false} BlockedForGood(stores: Stores, v: IndexView, m: Meta, pieces: seq<seq<byte>>,
                                          table: seq<Pointer>, k: nat)
    requires GoodTable(table, pieces) && k <= |table| && FanoutRun(stores, v, m, pieces, table[..k]).blocked
    ensures Same(FanoutRun(stores, v, m, pieces, table), FanoutRun(stores, v, m, pieces, table[..k]))
  {
    if k == |table| {
      assert table[..k] == table;
    } else {
      var front := table[..|table| - 1];
      assert front[..k] == table[..k];
      BlockedForGood(stores, v, m, pieces, front, k);
    }
  }

  /** If entry k is the first that is addressed to a hanging node, those who hang in the end hang over entries before
      it. */
  lemma BlockedAt(stores: Stores, v: IndexView, m: Meta, pieces: seq<seq<byte>>, table: seq<Pointer>, k: nat)
    requires GoodTable(table, pieces) && v.me in stores && AllReachable(stores, v, table)
    requires k < |table| && AddressesHung(table, v.me, k) && !SomeAddressHung(table[..k], v.me)
    ensures var st := FanoutRun(stores, v, m, pieces, table);
            st.blocked && forall n :: n in st.hung <==> HangsOver(table[..k], v.me, n)
  {
    var front, p := table[..k], table[k];
    PrefixLast(table, k);
    assert CanReach(stores, v, p.node);
    RunHangs(stores, v, m, pieces, front);
    var st := FanoutRun(stores, v, m, pieces, front);
    TargetIsNode(st.stores, v, p);
    SendNextHangs(st, v, m, p, pieces[p.fragment - 1]);
    FanoutPrefix(stores, v, m, pieces, table, k);
    BlockedForGood(stores, v, m, pieces, table, k + 1);
  }

  // ---------------------------------------------------------------- the table of a file

  /** The two nodes that get fragment f. */
  function Holders(live: seq<nat>, f: nat): set<nat>
    requires 1 <= f <= |live|
  {
    {live[f - 1], live[NextLive(f - 1, |live|)]}
  }

  /** All pieces but the last are equally long. */
  predicate EvenPieces(pieces: seq<seq<byte>>) {
    forall i :: 0 <= i < |pieces| - 1 ==> |pieces[i]| == |pieces[0]|
  }

  /** These pieces are spread over these nodes; the index is the last of them, or none. */
  ghost predicate FansOut(live: seq<nat>, pieces: seq<seq<byte>>, me: nat) {
    && Spreads(live, pieces) && EvenPieces(pieces)
    && (forall j :: 0 <= j < |live| - 1 ==> live[j] != me) && (|live| == 1 ==> live[0] != me)
  }

  /** The index will be lost: the file is split over all nodes, and its first piece cannot be transferred. */
  predicate Fatal(live: seq<nat>, pieces: seq<seq<byte>>) {
    |pieces| == |live| >= 1 && |pieces[0]| % 4096 == 0
  }

  /** Who will hang: the holders of the first piece if the index is lost; otherwise those of the last one if that
      cannot be transferred; but never the index. */
  function Hanging(live: seq<nat>, pieces: seq<seq<byte>>, me: nat): set<nat>
    requires 1 <= |pieces| <= |live|
  {
    (if Fatal(live, pieces) then Holders(live, 1)
     else if |pieces[|pieces| - 1]| % 4096 == 0 then Holders(live, |pieces|) else {}) - {me}
  }

  ghost predicate EndsAs(st: FanoutState, live: seq<nat>, pieces: seq<seq<byte>>, me: nat)
    requires 1 <= |pieces| <= |live|
  {
    (st.blocked <==> Fatal(live, pieces)) && st.hung == Hanging(live, pieces, me)
  }

  /** An entry at a hanging node's second position comes after one for a piece other than the last. */
  lemma NotFatalSplit(live: seq<nat>, pieces: seq<seq<byte>>, me: nat, k: nat)
    requires FansOut(live, pieces, me) && |pieces| == |live| >= 2 && k < 2 * |pieces|
    ensures AddressesHung(FileTable(live, pieces), me, k) ==> Fatal(live, pieces)
  {
    var table := FileTable(live, pieces);
    if AddressesHung(table, me, k) {
      var j :| 0 <= j < |table[..k]| && !Transportable(table[..k][j], me) && table[..k][j].node == table[k].node;
      assert table[..k][j] == table[j];
      FileTableAt(live, pieces, j);
      var i := if j % 2 == 0 then j / 2 else NextLive(j / 2, |live|);
      PositionsOf(live, pieces, i, j);
      PositionsOf(live, pieces, i, k);
      assert j == FirstPosition(|live|, i);
      assert j / 2 < |pieces| - 1;
    }
  }

  lemma NotFatalWhole(live: seq<nat>, pieces: seq<seq<byte>>, me: nat, k: nat)
    requires FansOut(live, pieces, me) && |pieces| == 1 && k < 2
    ensures AddressesHung(FileTable(live, pieces), me, k) ==> Fatal(live, pieces)
  {
    var table := FileTable(live, pieces);
    FileTableAt(live, pieces, 0);
    FileTableAt(live, pieces, 1);
    if |live| >= 2 {
      assert live[0] != live[1];
    }
    if AddressesHung(table, me, k) {
      var j :| 0 <= j < |table[..k]| && !Transportable(table[..k][j], me) && table[..k][j].node == table[k].node;
      assert j == 0 && k == 1;
    }
  }

  lemma NotFatal(live: seq<nat>, pieces: seq<seq<byte>>, me: nat)
    requires FansOut(live, pieces, me) && !Fatal(live, pieces)
    ensures !SomeAddressHung(FileTable(live, pieces), me)
  {
    forall k: nat | k < 2 * |pieces|
      ensures !AddressesHung(FileTable(live, pieces), me, k)
    {
      if |pieces| == 1 {
        NotFatalWhole(live, pieces, me, k);
      } else {
        NotFatalSplit(live, pieces, me, k);
      }
    }
  }

  /** If the index is not lost, only the last piece can be untransportable. */
  lemma HangsOverLastPiece(live: seq<nat>, pieces: seq<seq<byte>>, me: nat, n: nat)
    requires FansOut(live, pieces, me) && !Fatal(live, pieces)
    ensures HangsOver(FileTable(live, pieces), me, n) <==> n in Hanging(live, pieces, me)
  {
    var table, last := FileTable(live, pieces), |pieces| - 1;
    FileTableAt(live, pieces, 2 * last);
    FileTableAt(live, pieces, 2 * last + 1);
    EvenOdd(last);
    if HangsOver(table, me, n) {
      var k :| 0 <= k < |table| && !Transportable(table[k], me) && table[k].node == n;
      FileTableAt(live, pieces, k);
      assert k / 2 == last;
    }
    if n in Hanging(live, pieces, me) {
      assert !Transportable(table[2 * last], me) || table[2 * last].node == me;
      assert table[2 * last].node == n || table[2 * last + 1].node == n;
    }
  }

  lemma LostSingle(live: seq<nat>, pieces: seq<seq<byte>>, me: nat)
    requires FansOut(live, pieces, me) && Fatal(live, pieces) && |live| == 1
    ensures var table := FileTable(live, pieces);
            && AddressesHung(table, me, 1) && !SomeAddressHung(table[..1], me)
            && forall n :: n in Hanging(live, pieces, me) <==> HangsOver(table[..1], me, n)
  {
    var table := FileTable(live, pieces);
    FileTableAt(live, pieces, 0);
    FileTableAt(live, pieces, 1);
    assert table[..1][0] == table[0] && table[..1][..0] == [];
    assert !Transportable(table[..1][0], me);
  }

  lemma LostAtThird(live: seq<nat>, pieces: seq<seq<byte>>, me: nat)
    requires FansOut(live, pieces, me) && Fatal(live, pieces) && |live| >= 2 && live[1] != me
    ensures var table := FileTable(live, pieces);
            && |table| >= 4 && AddressesHung(table, me, 2) && !SomeAddressHung(table[..2], me)
            && forall n :: n in Hanging(live, pieces, me) <==> HangsOver(table[..2], me, n)
  {
    var table := FileTable(live, pieces);
    FileTableAt(live, pieces, 0);
    FileTableAt(live, pieces, 1);
    FileTableAt(live, pieces, 2);
    var front := table[..2];
    assert front[0] == table[0] && front[1] == table[1] && front[..0] == [] && front[..1][0] == table[0];
    assert !Transportable(front[0], me) && !Transportable(front[1], me);
    assert live[0] != live[1];
  }

  lemma LostAtFourth(live: seq<nat>, pieces: seq<seq<byte>>, me: nat)
    requires FansOut(live, pieces, me) && Fatal(live, pieces) && |live| >= 2 && live[1] == me
    ensures var table := FileTable(live, pieces);
            && |table| == 4 && AddressesHung(table, me, 3) && !SomeAddressHung(table[..3], me)
            && forall n :: n in Hanging(live, pieces, me) <==> HangsOver(table[..3], me, n)
  {
    var table := FileTable(live, pieces);
    assert |live| == 2;
    FileTableAt(live, pieces, 0);
    FileTableAt(live, pieces, 1);
    FileTableAt(live, pieces, 2);
    FileTableAt(live, pieces, 3);
    var front := table[..3];
    assert front[0] == table[0] && front[1] == table[1] && front[2] == table[2] && front[..0] == [];
    assert !Transportable(front[0], me);
  }

  /** A complete account of a fan-out: who hangs, and whether the index is lost. */
  lemma FanoutEnds(stores: Stores, v: IndexView, m: Meta, live: seq<nat>, pieces: seq<seq<byte>>)
    requires FansOut(live, pieces, v.me) && v.me in stores && AllReachable(stores, v, FileTable(live, pieces))
    ensures EndsAs(FanoutRun(stores, v, m, pieces, FileTable(live, pieces)), live, pieces, v.me)
  {
    var table := FileTable(live, pieces);
    RunHangs(stores, v, m, pieces, table);
    if !Fatal(live, pieces) {
      NotFatal(live, pieces, v.me);
      forall n
        ensures HangsOver(table, v.me, n) <==> n in Hanging(live, pieces, v.me)
      {
        if HangsOver(table, v.me, n) || n in Hanging(live, pieces, v.me) {
          HangsOverLastPiece(live, pieces, v.me, n);
        }
      }
    } else if |live| == 1 {
      LostSingle(live, pieces, v.me);
      BlockedAt(stores, v, m, pieces, table, 1);
    } else if live[1] != v.me {
      LostAtThird(live, pieces, v.me);
      BlockedAt(stores, v, m, pieces, table, 2);
    } else {
      LostAtFourth(live, pieces, v.me);
      BlockedAt(stores, v, m, pieces, table, 3);
    }
  }

  // ---------------------------------------------------------------- a file

  lemma PieceSizes(f: File, n: nat)
    requires n >= 1
    ensures var pieces := PiecesFor(f, n);
            && EvenPieces(pieces)
            && (|pieces| == n ==> |pieces[0]| == |f.data| / n + if n == 1 then |f.data| % n else 0)
            && |pieces[|pieces| - 1]| == |f.data| / |pieces| + |f.data| % |pieces|
  {
    var pieces := PiecesFor(f, n);
    forall i: nat | i < |pieces|
      ensures |pieces[i]| == FragmentSize(|f.data|, |pieces|, i)
    {
      assert pieces[i + 1 - 1] == Fragment(f.data, |pieces|, i + 1);
    }
  }

  lemma FatalIff(live: seq<nat>, f: File)
    requires |live| >= 1
    ensures Fatal(live, PiecesFor(f, |live|)) <==>
            FragmentCount(|f.data|, |live|) == |live| && |f.data| / |live| % 4096 == 0
  {
    PieceSizes(f, |live|);
  }

  lemma RingFansOut(ring: nat, f: File)
    requires ring >= 2
    ensures FansOut(FirstNodes(ring), Pieces(ring, f), ring)
  {
    PieceSizes(f, ring);
  }

  /** In a complete ring, storing a file costs the index exactly if the file is split and the common size of its
      fragments is a multiple of 4096. */
  lemma BlockedIff(stores: Stores, v: IndexView, ring: nat, m: Meta, f: File)
    requires FullView(v, ring) && stores.Keys == RingNodes(ring)
    ensures FanoutRun(stores, v, m, Pieces(ring, f), RingTable(ring, f)).blocked <==>
            |Pieces(ring, f)| > 1 && |f.data| / ring % 4096 == 0
  {
    RingReachable(stores, v, ring, f);
    RingFansOut(ring, f);
    FanoutEnds(stores, v, m, FirstNodes(ring), Pieces(ring, f));
    FatalIff(FirstNodes(ring), f);
  }

  lemma SpotsFanOut(v: IndexView, ring: nat, lost: nat, f: File)
    requires LossView(v, ring, lost)
    ensures |Spots(v, ring, lost)| == v.netSize >= 1
    ensures FansOut(Spots(v, ring, lost), PiecesFor(f, v.netSize), v.me)
  {
    var live := Spots(v, ring, lost);
    SpotsUsable(v, ring, lost);
    PieceSizes(f, v.netSize);
    forall j | 0 <= j < |live| - 1
      ensures live[j] != v.me
    {
      assert live[j] < live[|live| - 1] && live[|live| - 1] in live;
    }
  }

  /** The same after a loss, with the net size the index then has; with a net size of one, the only node gets both
      copies of an unsplit file. */
  lemma BlockedIffReduced(stores: Stores, v: IndexView, ring: nat, lost: nat, m: Meta, f: File)
    requires LossView(v, ring, lost) && stores.Keys == RingNodes(ring) - {lost}
    ensures v.netSize >= 1 && Sized(v) && GoodTable(TableFor(v, f), PiecesFor(f, v.netSize))
    ensures FanoutRun(stores, v, m, PiecesFor(f, v.netSize), TableFor(v, f)).blocked <==>
            |PiecesFor(f, v.netSize)| == v.netSize && |f.data| / v.netSize % 4096 == 0
  {
    var live := Spots(v, ring, lost);
    PlacedOnSpots(v, ring, lost, f);
    SpotsUsable(v, ring, lost);
    SpotsStored(stores, v, ring, lost);
    TargetsReachable(stores, v, live, PiecesFor(f, v.netSize));
    SpotsFanOut(v, ring, lost, f);
    FanoutEnds(stores, v, m, live, PiecesFor(f, v.netSize));
    FatalIff(live, f);
  }

  // ---------------------------------------------------------------- a put

  /** The fan-out of a put whose upload has completed. */
  function PutRun(s: System, v: IndexView, f: File): FanoutState
    requires CanPlace(s, v, f)
  {
    var m := MetaFor(f, |s.stores[v.me]| + 1, v.netSize);
    FanoutRun(Started(s.stores, v.me, m), v, m, PiecesFor(f, v.netSize), TableFor(v, f))
  }

  /** Storing this file on these nodes costs the index. */
  predicate LosesIndex(live: seq<nat>, f: File)
    requires |live| >= 1
  {
    FragmentCount(|f.data|, |live|) > 1 && |f.data| / |live| % 4096 == 0
  }

  /** Storing this file on these nodes leaves these nodes hanging. */
  function Victims(live: seq<nat>, f: File, me: nat): set<nat>
    requires |live| >= 1
  {
    var n := |live|;
    if FragmentCount(|f.data|, n) == 1 then {}
    else if |f.data| / n % 4096 == 0 then {live[0], live[1]} - {me}
    else if (|f.data| / n + |f.data| % n) % 4096 == 0 then {live[n - 1], live[0]} - {me}
    else {}
  }

  /** How a put of a file that has been uploaded ends. */
  ghost predicate PutEnds(run: FanoutState, live: seq<nat>, f: File, me: nat)
    requires |live| >= 1
  {
    (run.blocked <==> LosesIndex(live, f)) && run.hung == Victims(live, f, me)
  }

  lemma VictimsHang(live: seq<nat>, f: File, me: nat)
    requires |live| >= 1 && |f.data| % 4096 != 0
    ensures Fatal(live, PiecesFor(f, |live|)) <==> LosesIndex(live, f)
    ensures Hanging(live, PiecesFor(f, |live|), me) == Victims(live, f, me)
  {
    PieceSizes(f, |live|);
    FatalIff(live, f);
  }

  /** A put succeeds exactly if the upload completes and nobody hangs afterwards. */
  lemma PutRunCompletes(s: System, v: IndexView, f: File)
    requires CanPlace(s, v, f)
    ensures PutFile(s, v, f).Some? <==> |f.data| % 4096 != 0 && PutRun(s, v, f).hung == {}
  {
    var m := MetaFor(f, |s.stores[v.me]| + 1, v.netSize);
    var started, pieces := Started(s.stores, v.me, m), PiecesFor(f, v.netSize);
    FanoutRunCompletes(started, v, m, pieces, TableFor(v, f));
    BlockedByHung(started, v, m, pieces, TableFor(v, f));
  }

  lemma PutRunEnds(s: System, v: IndexView, live: seq<nat>, f: File)
    requires CanPlace(s, v, f) && |live| == v.netSize && FansOut(live, PiecesFor(f, v.netSize), v.me)
    requires TableFor(v, f) == FileTable(live, PiecesFor(f, v.netSize)) && |f.data| % 4096 != 0
    ensures PutEnds(PutRun(s, v, f), live, f, v.me)
  {
    var m := MetaFor(f, |s.stores[v.me]| + 1, v.netSize);
    FanoutEnds(Started(s.stores, v.me, m), v, m, live, PiecesFor(f, v.netSize));
    VictimsHang(live, f, v.me);
  }
}
