/** What storing a file leaves on every node, written out byte by byte: which files are cut up, where the pieces go, and
    what is missing if a transfer never completes. */
module Effects {
  import opened Types
  import opened Split
  import opened Placement
  import opened Storage
  import opened Layout
  import opened Cluster
  import opened Hangs
  import opened Leftovers

  /** A file of more than 100 bytes is cut into as many pieces as there are nodes, unless it has no more bytes than
      that; smaller ones are kept whole. */
  lemma PiecesCount(f: File, n: nat)
    requires n >= 1
    ensures |PiecesFor(f, n)| == if |f.data| <= 100 || |f.data| <= n then 1 else n
  {
  }

  /** Fragment i + 1 of n of this file: equally long pieces, the last one with what is left over. */
  function Part(f: File, n: nat, i: nat): Slot
    requires i < n
  {
    RangesTile(|f.data|, n, i + 1);
    if i + 1 < n then Slot(i + 1, f.data[|f.data| / n * i..|f.data| / n * (i + 1)])
    else Slot(i + 1, f.data[|f.data| / n * i..])
  }

  /** A new container of this file with these slots. */
  function Box(f: File, id: nat, n: nat, s0: Slot, s1: Slot): FileStore {
    [Container(Stem(f.name), id, |f.data|, if |f.data| <= 100 || |f.data| <= n then 1 else n, s0, s1)]
  }

  /** What the j-th of these nodes gains when this file is stored on them. */
  function LeftAt(live: seq<nat>, me: nat, f: File, id: nat, j: nat): FileStore
    requires j < |live|
  {
    var n, whole := |live|, Slot(1, f.data);
    if n == 1 then Box(f, id, n, whole, whole)
    else if |f.data| <= 100 || |f.data| <= n then
      if j <= 1 then Box(f, id, n, whole, FREE)
      else if live[j] == me then Box(f, id, n, FREE, FREE)
      else []
    else if |f.data| / n % 4096 == 0 then
      if n == 2 && live[j] == me then Box(f, id, n, Part(f, n, 0), Part(f, n, 1))
      else if j <= 1 || live[j] == me then Box(f, id, n, FREE, FREE)
      else []
    else
      var lacking := (|f.data| / n + |f.data| % n) % 4096 == 0 && live[j] != me;
      if j == 0 then Box(f, id, n, Part(f, n, 0), if lacking then FREE else Part(f, n, n - 1))
      else if j == n - 1 then Box(f, id, n, Part(f, n, n - 2), if lacking then FREE else Part(f, n, n - 1))
      else Box(f, id, n, Part(f, n, j - 1), Part(f, n, j))
  }

  /** Storing this file on these nodes has turned the stores `before` into `after`; a node that is not among them gains
      nothing, the index an empty container. */
  ghost predicate Leaves(before: Stores, after: Stores, live: seq<nat>, me: nat, f: File, id: nat) {
    && after.Keys == before.Keys
    && (forall j :: 0 <= j < |live| && live[j] in before ==>
          after[live[j]] == before[live[j]] + LeftAt(live, me, f, id, j))
    && (forall node :: node in before && node !in live ==>
          after[node] == before[node] + if node == me then Box(f, id, |live|, FREE, FREE) else [])
  }

  // ---------------------------------------------------------------- what arrives

  /** If all of a node's entries can be transferred, everything arrives there. */
  lemma {:induction false} AllArrived(table: seq<Pointer>, pieces: seq<seq<byte>>, me: nat, n: nat)
    requires GoodTable(table, pieces)
    requires forall k :: 0 <= k < |table| && table[k].node == n ==> Transportable(table[k], me)
    ensures Arrived(table, pieces, me, n) == Held(table, pieces, n)
  {
    if table != [] {
      AllArrived(table[..|table| - 1], pieces, me, n);
    }
  }

  lemma {:induction false} NoneArrived(table: seq<Pointer>, pieces: seq<seq<byte>>, me: nat, n: nat)
    requires GoodTable(table, pieces)
    requires forall k :: 0 <= k < |table| && table[k].node == n ==> !Transportable(table[k], me)
    ensures Arrived(table, pieces, me, n) == []
  {
    if table != [] {
      NoneArrived(table[..|table| - 1], pieces, me, n);
    }
  }

  lemma {:induction false} OneArrived(table: seq<Pointer>, pieces: seq<seq<byte>>, me: nat, n: nat, a: nat)
    requires GoodTable(table, pieces) && a < |table|
    requires forall k :: 0 <= k < |table| ==> (table[k].node == n && Transportable(table[k], me) <==> k == a)
    ensures Arrived(table, pieces, me, n) == [SlotOf(pieces, table[a].fragment)]
  {
    var front := table[..|table| - 1];
    assert forall k :: 0 <= k < |front| ==> front[k] == table[k];
    if a == |table| - 1 {
      NoneArrived(front, pieces, me, n);
    } else {
      OneArrived(front, pieces, me, n, a);
    }
  }

  /** Nothing is held where nothing is addressed, and the other way round. */
  lemma {:induction false} HeldIffAddressed(table: seq<Pointer>, pieces: seq<seq<byte>>, n: nat)
    requires GoodTable(table, pieces)
    ensures Held(table, pieces, n) == [] <==> !Addressed(table, n)
  {
    if table != [] {
      var front, p := table[..|table| - 1], table[|table| - 1];
      HeldIffAddressed(front, pieces, n);
      FrontLast(table);
      AddressedLast(front, p, n);
    }
  }

  /** A node all of whose entries can be transferred gains what the table assigns to it. */
  lemma GainsAll(m: Meta, table: seq<Pointer>, pieces: seq<seq<byte>>, me: nat, n: nat)
    requires GoodTable(table, pieces)
    requires forall k :: 0 <= k < |table| && table[k].node == n ==> Transportable(table[k], me)
    ensures GainedSoFar(m, table, pieces, me, n) == GainOf(m, Held(table, pieces, n), n == me)
  {
    AllArrived(table, pieces, me, n);
    HeldIffAddressed(table, pieces, n);
  }

  /** Outside the list nobody gains anything, but the index opens a container. */
  lemma GainsOutside(m: Meta, live: seq<nat>, pieces: seq<seq<byte>>, me: nat, n: nat, k: nat)
    requires 1 <= |pieces| <= |live| && k <= 2 * |pieces| && n !in live
    ensures GoodTable(FileTable(live, pieces)[..k], pieces)
    ensures GainedSoFar(m, FileTable(live, pieces)[..k], pieces, me, n) == if n == me then [Fresh(m)] else []
  {
    var table := FileTable(live, pieces);
    forall p: nat | p < 2 * |pieces|
      ensures table[p].node != n
    {
      FileTableAt(live, pieces, p);
    }
    NoneArrived(table[..k], pieces, me, n);
  }

  // ---------------------------------------------------------------- a file kept whole

  lemma SlotIsPart(f: File, n: nat, pieces: seq<seq<byte>>, i: nat)
    requires n >= 1 && pieces == PiecesFor(f, n) && |pieces| == n && i < n
    ensures SlotOf(pieces, i + 1) == Part(f, n, i)
  {
    RangesTile(|f.data|, n, i + 1);
    assert pieces[i + 1 - 1] == Fragment(f.data, n, i + 1);
  }

  lemma SlotIsWhole(f: File, n: nat)
    requires n >= 1 && |PiecesFor(f, n)| == 1
    ensures SlotOf(PiecesFor(f, n), 1) == Slot(1, f.data)
  {
    assert PiecesFor(f, n)[1 - 1] == Fragment(f.data, 1, 1);
    RangesTile(|f.data|, 1, 1);
  }

  /** The entries of an unsplit file can all be transferred, if the file could be uploaded. */
  lemma WholeGains(live: seq<nat>, f: File, me: nat, id: nat, j: nat)
    requires |live| >= 1 && FansOut(live, PiecesFor(f, |live|), me) && |PiecesFor(f, |live|)| == 1
    requires |f.data| % 4096 != 0 && j < |live|
    ensures var m, pieces := MetaFor(f, id, |live|), PiecesFor(f, |live|);
            GainedSoFar(m, FileTable(live, pieces), pieces, me, live[j]) == LeftAt(live, me, f, id, j)
  {
    var n, pieces := |live|, PiecesFor(f, |live|);
    var m, table := MetaFor(f, id, n), FileTable(live, pieces);
    PiecesCount(f, n);
    SlotIsWhole(f, n);
    FileTableAt(live, pieces, 0);
    FileTableAt(live, pieces, 1);
    GainsAll(m, table, pieces, me, live[j]);
    HeldIsShare(live, pieces, j);
  }

  // ---------------------------------------------------------------- a split file, the index not lost

  /** Only the last piece can be untransportable. */
  lemma OnlyLastFails(live: seq<nat>, pieces: seq<seq<byte>>, me: nat, k: nat)
    requires FansOut(live, pieces, me) && !Fatal(live, pieces) && |pieces| == |live| >= 2 && k < 2 * |pieces|
    ensures var p := FileTable(live, pieces)[k];
            Transportable(p, me) <==> k < 2 * |pieces| - 2 || p.node == me || |pieces[|pieces| - 1]| % 4096 != 0
  {
    FileTableAt(live, pieces, k);
    assert k / 2 < |pieces| - 1 ==> |pieces[k / 2]| == |pieces[0]|;
  }

  /** A node to which everything can be transferred has its share. */
  lemma SplitShare(live: seq<nat>, pieces: seq<seq<byte>>, m: Meta, me: nat, j: nat)
    requires FansOut(live, pieces, me) && !Fatal(live, pieces) && |pieces| == |live| >= 2 && j < |live|
    requires |pieces[|pieces| - 1]| % 4096 != 0 || live[j] == me || 0 < j < |live| - 1
    ensures GainedSoFar(m, FileTable(live, pieces), pieces, me, live[j]) ==
            [WithSlots(m, Slots(pieces, Share(|live|, |live|, j)))]
  {
    var table := FileTable(live, pieces);
    forall k: nat | k < |table| && table[k].node == live[j]
      ensures Transportable(table[k], me)
    {
      OnlyLastFails(live, pieces, me, k);
      PositionsOf(live, pieces, j, k);
    }
    GainsAll(m, table, pieces, me, live[j]);
    HeldIsShare(live, pieces, j);
  }

  /** A node that waits for the last piece has the other one it was sent. */
  lemma SplitLacking(live: seq<nat>, pieces: seq<seq<byte>>, m: Meta, me: nat, j: nat)
    requires FansOut(live, pieces, me) && !Fatal(live, pieces) && |pieces| == |live| >= 2
    requires |pieces[|pieces| - 1]| % 4096 == 0 && (j == 0 || j == |live| - 1) && live[j] != me
    ensures GainedSoFar(m, FileTable(live, pieces), pieces, me, live[j]) ==
            [WithSlots(m, [SlotOf(pieces, if j == 0 then 1 else j)])]
  {
    var table, a := FileTable(live, pieces), FirstPosition(|live|, j);
    SplitPositions(live, pieces, j);
    FileTableAt(live, pieces, a);
    forall k: nat | k < |table|
      ensures table[k].node == live[j] && Transportable(table[k], me) <==> k == a
    {
      OnlyLastFails(live, pieces, me, k);
      PositionsOf(live, pieces, j, k);
    }
    OneArrived(table, pieces, me, live[j], a);
  }

  lemma ShareBox(f: File, id: nat, n: nat, j: nat)
    requires n >= 2 && |PiecesFor(f, n)| == n && j < n
    ensures [WithSlots(MetaFor(f, id, n), Slots(PiecesFor(f, n), Share(n, n, j)))] ==
            if j == 0 then Box(f, id, n, Part(f, n, 0), Part(f, n, n - 1))
            else Box(f, id, n, Part(f, n, j - 1), Part(f, n, j))
  {
    var pieces := PiecesFor(f, n);
    SlotIsPart(f, n, pieces, j);
    SlotIsPart(f, n, pieces, if j == 0 then n - 1 else j - 1);
  }

  lemma LackingBox(f: File, id: nat, n: nat, j: nat)
    requires n >= 2 && |PiecesFor(f, n)| == n && (j == 0 || j == n - 1)
    ensures [WithSlots(MetaFor(f, id, n), [SlotOf(PiecesFor(f, n), if j == 0 then 1 else j)])] ==
            Box(f, id, n, Part(f, n, if j == 0 then 0 else n - 2), FREE)
  {
    SlotIsPart(f, n, PiecesFor(f, n), if j == 0 then 0 else n - 2);
  }

  /** LeftAt for a split file whose pieces but the last can all be transferred. */
  lemma LeftAtSplit(live: seq<nat>, me: nat, f: File, id: nat, j: nat)
    requires |live| >= 2 && j < |live| && |f.data| > 100 && |f.data| > |live| && |f.data| / |live| % 4096 != 0
    ensures var n := |live|;
            var lacking := (|f.data| / n + |f.data| % n) % 4096 == 0 && live[j] != me && (j == 0 || j == n - 1);
            LeftAt(live, me, f, id, j) ==
            if j == 0 then Box(f, id, n, Part(f, n, 0), if lacking then FREE else Part(f, n, n - 1))
            else Box(f, id, n, Part(f, n, j - 1), if lacking then FREE else Part(f, n, j))
  {
  }

  lemma SplitFacts(live: seq<nat>, f: File)
    requires |live| >= 2 && |PiecesFor(f, |live|)| == |live| && !Fatal(live, PiecesFor(f, |live|))
    ensures var n, pieces := |live|, PiecesFor(f, |live|);
            && |f.data| > 100 && |f.data| > n && |f.data| / n % 4096 != 0
            && |pieces[n - 1]| == |f.data| / n + |f.data| % n
  {
    PiecesCount(f, |live|);
    PieceSizes(f, |live|);
  }

  lemma SplitGains(live: seq<nat>, f: File, me: nat, id: nat, j: nat)
    requires |live| >= 2 && FansOut(live, PiecesFor(f, |live|), me)
    requires |PiecesFor(f, |live|)| == |live| && !Fatal(live, PiecesFor(f, |live|))
    requires j < |live|
    ensures var m, pieces := MetaFor(f, id, |live|), PiecesFor(f, |live|);
            GainedSoFar(m, FileTable(live, pieces), pieces, me, live[j]) == LeftAt(live, me, f, id, j)
  {
    SplitFacts(live, f);
    if (|f.data| / |live| + |f.data| % |live|) % 4096 != 0 || live[j] == me || 0 < j < |live| - 1 {
      SplitGainsShare(live, f, me, id, j);
    } else {
      SplitGainsLess(live, f, me, id, j);
    }
  }

  lemma SplitGainsShare(live: seq<nat>, f: File, me: nat, id: nat, j: nat)
    requires |live| >= 2 && FansOut(live, PiecesFor(f, |live|), me)
    requires |PiecesFor(f, |live|)| == |live| && !Fatal(live, PiecesFor(f, |live|))
    requires j < |live|
    requires (|f.data| / |live| + |f.data| % |live|) % 4096 != 0 || live[j] == me || 0 < j < |live| - 1
    ensures var m, pieces := MetaFor(f, id, |live|), PiecesFor(f, |live|);
            GainedSoFar(m, FileTable(live, pieces), pieces, me, live[j]) == LeftAt(live, me, f, id, j)
  {
    SplitFacts(live, f);
    LeftAtSplit(live, me, f, id, j);
    SplitShare(live, PiecesFor(f, |live|), MetaFor(f, id, |live|), me, j);
    ShareBox(f, id, |live|, j);
  }

  lemma SplitGainsLess(live: seq<nat>, f: File, me: nat, id: nat, j: nat)
    requires |live| >= 2 && FansOut(live, PiecesFor(f, |live|), me)
    requires |PiecesFor(f, |live|)| == |live| && !Fatal(live, PiecesFor(f, |live|))
    requires (|f.data| / |live| + |f.data| % |live|) % 4096 == 0 && (j == 0 || j == |live| - 1) && live[j] != me
    ensures var m, pieces := MetaFor(f, id, |live|), PiecesFor(f, |live|);
            GainedSoFar(m, FileTable(live, pieces), pieces, me, live[j]) == LeftAt(live, me, f, id, j)
  {
    SplitFacts(live, f);
    LeftAtSplit(live, me, f, id, j);
    SplitLacking(live, PiecesFor(f, |live|), MetaFor(f, id, |live|), me, j);
    LackingBox(f, id, |live|, j);
  }

  // ---------------------------------------------------------------- a split file, the index lost

  /** The entry that costs the index. */
  function FatalEntry(live: seq<nat>, me: nat): nat
    requires |live| >= 2
  {
    if live[1] == me then 3 else 2
  }

  lemma LostAt(live: seq<nat>, pieces: seq<seq<byte>>, me: nat)
    requires FansOut(live, pieces, me) && Fatal(live, pieces) && |live| >= 2
    ensures var table, k := FileTable(live, pieces), FatalEntry(live, me);
            k < |table| && AddressesHung(table, me, k) && !SomeAddressHung(table[..k], me)
  {
    if live[1] != me {
      LostAtThird(live, pieces, me);
    } else {
      LostAtFourth(live, pieces, me);
    }
  }

  lemma LostGains(live: seq<nat>, f: File, me: nat, id: nat, j: nat)
    requires |live| >= 2 && FansOut(live, PiecesFor(f, |live|), me)
    requires |PiecesFor(f, |live|)| == |live| && Fatal(live, PiecesFor(f, |live|))
    requires j < |live|
    ensures var table := FileTable(live, PiecesFor(f, |live|))[..FatalEntry(live, me)];
            && GoodTable(table, PiecesFor(f, |live|))
            && GainedSoFar(MetaFor(f, id, |live|), table, PiecesFor(f, |live|), me, live[j]) ==
               LeftAt(live, me, f, id, j)
  {
    var n, pieces := |live|, PiecesFor(f, |live|);
    PiecesCount(f, n);
    PieceSizes(f, n);
    FileTableAt(live, pieces, 0);
    FileTableAt(live, pieces, 1);
    FileTableAt(live, pieces, 2);
    if live[1] != me {
      LostEarly(live, pieces, MetaFor(f, id, n), me, j);
    } else {
      SlotIsPart(f, n, pieces, 0);
      SlotIsPart(f, n, pieces, 1);
      LostLate(live, pieces, MetaFor(f, id, n), me, j);
    }
  }

  lemma LostEarly(live: seq<nat>, pieces: seq<seq<byte>>, m: Meta, me: nat, j: nat)
    requires FansOut(live, pieces, me) && Fatal(live, pieces) && |live| >= 2 && j < |live| && live[1] != me
    ensures GoodTable(FileTable(live, pieces)[..2], pieces)
    ensures GainedSoFar(m, FileTable(live, pieces)[..2], pieces, me, live[j]) ==
            if j <= 1 || live[j] == me then [Fresh(m)] else []
  {
    var table := FileTable(live, pieces);
    FileTableAt(live, pieces, 0);
    FileTableAt(live, pieces, 1);
    NoneArrived(table[..2], pieces, me, live[j]);
    assert table[..2][0].node == live[0] && table[..2][1].node == live[1];
    assert live[j] == live[0] ==> j == 0;
    assert live[j] == live[1] ==> j == 1;
  }

  lemma LostLate(live: seq<nat>, pieces: seq<seq<byte>>, m: Meta, me: nat, j: nat)
    requires FansOut(live, pieces, me) && Fatal(live, pieces) && |live| >= 2 && j < |live| && live[1] == me
    ensures |live| == 2 && GoodTable(FileTable(live, pieces)[..3], pieces)
    ensures GainedSoFar(m, FileTable(live, pieces)[..3], pieces, me, live[j]) ==
            if j == 0 then [Fresh(m)] else [WithSlots(m, [SlotOf(pieces, 1), SlotOf(pieces, 2)])]
  {
    var table := FileTable(live, pieces);
    FileTableAt(live, pieces, 0);
    FileTableAt(live, pieces, 1);
    FileTableAt(live, pieces, 2);
    var front := table[..3];
    assert live[0] != live[1];
    if j == 0 {
      NoneArrived(front, pieces, me, live[0]);
      assert front[0].node == live[0];
    } else {
      AllArrived(front, pieces, me, me);
      HeldTwo(front, pieces, me, 1, 2);
    }
  }

  // ---------------------------------------------------------------- all cases

  lemma LeavesFrom(before: Stores, after: Stores, live: seq<nat>, me: nat, f: File, id: nat, k: nat)
    requires |live| >= 1 && 1 <= |PiecesFor(f, |live|)| && k <= 2 * |PiecesFor(f, |live|)|
    requires var table := FileTable(live, PiecesFor(f, |live|))[..k];
             && GoodTable(table, PiecesFor(f, |live|))
             && LeftBehind(before, after, MetaFor(f, id, |live|), table, PiecesFor(f, |live|), me)
             && forall j :: 0 <= j < |live| ==>
                  GainedSoFar(MetaFor(f, id, |live|), table, PiecesFor(f, |live|), me, live[j]) ==
                  LeftAt(live, me, f, id, j)
    ensures Leaves(before, after, live, me, f, id)
  {
    var n, pieces := |live|, PiecesFor(f, |live|);
    var m, table := MetaFor(f, id, n), FileTable(live, pieces)[..k];
    PiecesCount(f, n);
    forall node | node in before
      ensures after[node] == before[node] + GainedSoFar(m, table, pieces, me, node)
    {
      assert NodeLeft(before, after, m, table, pieces, me, node);
    }
    forall node | node in before && node !in live
      ensures after[node] == before[node] + if node == me then Box(f, id, n, FREE, FREE) else []
    {
      GainsOutside(m, live, pieces, me, node, k);
    }
  }

  /** Whatever becomes of the transfers, this is what every node has gained after the fan-out of a file that has been
      uploaded. */
  lemma FanoutLeaves(stores: Stores, v: IndexView, live: seq<nat>, f: File, id: nat)
    requires |live| >= 1 && FansOut(live, PiecesFor(f, |live|), v.me) && |f.data| % 4096 != 0
    requires v.me in stores && AllReachable(stores, v, FileTable(live, PiecesFor(f, |live|)))
    requires FreshEverywhere(stores, id)
    ensures var m, pieces := MetaFor(f, id, |live|), PiecesFor(f, |live|);
            var run := FanoutRun(Started(stores, v.me, m), v, m, pieces, FileTable(live, pieces));
            Leaves(stores, run.stores, live, v.me, f, id)
  {
    var n, pieces := |live|, PiecesFor(f, |live|);
    var m, table := MetaFor(f, id, n), FileTable(live, pieces);
    PiecesCount(f, n);
    PieceSizes(f, n);
    var k := if Fatal(live, pieces) then FatalEntry(live, v.me) else |table|;
    assert table[..|table|] == table;
    if Fatal(live, pieces) {
      LostAt(live, pieces, v.me);
      StoresAt(stores, v, m, pieces, table, k);
    } else {
      NotFatal(live, pieces, v.me);
      RunStores(stores, v, m, pieces, table);
    }
    forall j: nat | j < n
      ensures GoodTable(table[..k], pieces)
      ensures GainedSoFar(m, table[..k], pieces, v.me, live[j]) == LeftAt(live, v.me, f, id, j)
    {
      if Fatal(live, pieces) {
        LostGains(live, f, v.me, id, j);
      } else if |pieces| == 1 {
        WholeGains(live, f, v.me, id, j);
      } else {
        SplitGains(live, f, v.me, id, j);
      }
    }
    LeavesFrom(stores, FanoutRun(Started(stores, v.me, m), v, m, pieces, table).stores, live, v.me, f, id, k);
  }
}
