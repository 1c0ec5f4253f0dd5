/** Which fragments a placement table gives to each node, and in which slot they land. */
module Layout {
  import opened Types
  import opened Split
  import opened Placement
  import opened Storage

  /** The table of a file cut into these pieces, placed over a list of nodes. */
  function FileTable(live: seq<nat>, pieces: seq<seq<byte>>): (table: seq<Pointer>)
    requires 1 <= |pieces| <= |live|
    ensures |table| == 2 * |pieces| && GoodTable(table, pieces)
  {
    var table := LiveTable(live, Sizes(pieces));
    assert forall p :: 0 <= p < |table| ==> table[p] == LiveEntry(live, Sizes(pieces), p);
    table
  }

  lemma FileTableAt(live: seq<nat>, pieces: seq<seq<byte>>, p: nat)
    requires 1 <= |pieces| <= |live| && p < 2 * |pieces|
    ensures FileTable(live, pieces)[p] ==
            Pointer(p / 2 + 1, |pieces[p / 2]|, live[if p % 2 == 0 then p / 2 else NextLive(p / 2, |live|)])
  {
  }

  function SlotOf(pieces: seq<seq<byte>>, f: nat): Slot
    requires 1 <= f <= |pieces|
  {
    Slot(f, pieces[f - 1])
  }

  lemma {:induction false} HeldNone(table: seq<Pointer>, pieces: seq<seq<byte>>, n: nat)
    requires GoodTable(table, pieces)
    requires forall k :: 0 <= k < |table| ==> table[k].node != n
    ensures Held(table, pieces, n) == []
  {
    if table != [] {
      HeldNone(table[..|table| - 1], pieces, n);
    }
  }

  lemma {:induction false} HeldOne(table: seq<Pointer>, pieces: seq<seq<byte>>, n: nat, a: nat)
    requires GoodTable(table, pieces) && a < |table|
    requires forall k :: 0 <= k < |table| ==> (table[k].node == n <==> k == a)
    ensures Held(table, pieces, n) == [SlotOf(pieces, table[a].fragment)]
  {
    var front := table[..|table| - 1];
    assert forall k :: 0 <= k < |front| ==> front[k] == table[k];
    if a == |table| - 1 {
      HeldNone(front, pieces, n);
    } else {
      HeldOne(front, pieces, n, a);
    }
  }

  lemma {:induction false} HeldTwo(table: seq<Pointer>, pieces: seq<seq<byte>>, n: nat, a: nat, b: nat)
    requires GoodTable(table, pieces) && a < b < |table|
    requires forall k :: 0 <= k < |table| ==> (table[k].node == n <==> k == a || k == b)
    ensures Held(table, pieces, n) ==
            [SlotOf(pieces, table[a].fragment), SlotOf(pieces, table[b].fragment)]
  {
    var front := table[..|table| - 1];
    assert forall k :: 0 <= k < |front| ==> front[k] == table[k];
    if b == |table| - 1 {
      HeldOne(front, pieces, n, a);
    } else {
      HeldTwo(front, pieces, n, a, b);
    }
  }

  /** The fragment ids that the j-th node of a list of `nodes` receives, in order. Only when two copies of
      a single fragment have one node to go to does that node receive the same fragment twice. */
  function Share(nodes: nat, count: nat, j: nat): (ids: seq<nat>)
    requires 1 <= count <= nodes && (count == 1 || count == nodes) && j < nodes
    ensures |ids| <= 2 && forall k :: 0 <= k < |ids| ==> 1 <= ids[k] <= count
  {
    if nodes == 1 then [1, 1]
    else if count == 1 then (if j <= 1 then [1] else [])
    else if j == 0 then [1, count]
    else [j, j + 1]
  }

  function Slots(pieces: seq<seq<byte>>, ids: seq<nat>): (slots: seq<Slot>)
    requires |ids| <= 2 && forall k :: 0 <= k < |ids| ==> 1 <= ids[k] <= |pieces|
    ensures |slots| == |ids|
  {
    if |ids| == 0 then []
    else if |ids| == 1 then [SlotOf(pieces, ids[0])]
    else [SlotOf(pieces, ids[0]), SlotOf(pieces, ids[1])]
  }

  /** The two table positions of the j-th node, for a file split over the whole list. */
  function FirstPosition(count: nat, j: nat): nat
    requires j < count
  {
    if j == 0 then 0 else 2 * j - 1
  }

  function SecondPosition(count: nat, j: nat): nat
    requires j < count
  {
    if j == 0 then 2 * count - 1 else 2 * j
  }

  lemma PositionsOf(live: seq<nat>, pieces: seq<seq<byte>>, j: nat, p: nat)
    requires |pieces| == |live| >= 2 && Distinct(live) && j < |live| && p < 2 * |live|
    ensures FileTable(live, pieces)[p].node == live[j] <==>
            p == FirstPosition(|live|, j) || p == SecondPosition(|live|, j)
  {
    FileTableAt(live, pieces, p);
    var i := if p % 2 == 0 then p / 2 else NextLive(p / 2, |live|);
    assert live[i] == live[j] <==> i == j;
  }

  lemma SplitPositions(live: seq<nat>, pieces: seq<seq<byte>>, j: nat)
    requires |pieces| == |live| >= 2 && Distinct(live) && j < |live|
    ensures var table := FileTable(live, pieces);
            var a, b := FirstPosition(|live|, j), SecondPosition(|live|, j);
            && (forall p: nat :: p < |table| ==> (table[p].node == live[j] <==> p == a || p == b))
            && Share(|live|, |live|, j) == [table[a].fragment, table[b].fragment]
  {
    var table := FileTable(live, pieces);
    var a, b := FirstPosition(|live|, j), SecondPosition(|live|, j);
    forall p: nat | p < |table|
      ensures table[p].node == live[j] <==> p == a || p == b
    {
      PositionsOf(live, pieces, j, p);
    }
    FileTableAt(live, pieces, a);
    FileTableAt(live, pieces, b);
  }

  lemma HeldWhenSplit(live: seq<nat>, pieces: seq<seq<byte>>, j: nat)
    requires |pieces| == |live| >= 2 && Distinct(live) && j < |live|
    ensures Held(FileTable(live, pieces), pieces, live[j]) == Slots(pieces, Share(|live|, |live|, j))
  {
    var table, ids := FileTable(live, pieces), Share(|live|, |live|, j);
    var a, b := FirstPosition(|live|, j), SecondPosition(|live|, j);
    SplitPositions(live, pieces, j);
    HeldTwo(table, pieces, live[j], a, b);
    assert ids[0] == table[a].fragment && ids[1] == table[b].fragment;
    assert Slots(pieces, ids) == [SlotOf(pieces, ids[0]), SlotOf(pieces, ids[1])];
  }

  /** One fragment and a single node, which gets both copies. */
  lemma HeldBySingle(live: seq<nat>, pieces: seq<seq<byte>>)
    requires |pieces| == 1 == |live|
    ensures Held(FileTable(live, pieces), pieces, live[0]) == Slots(pieces, Share(1, 1, 0))
  {
    var table := FileTable(live, pieces);
    FileTableAt(live, pieces, 0);
    FileTableAt(live, pieces, 1);
    assert |table| == 2 && table[0].node == table[1].node == live[0] && table[0].fragment == table[1].fragment == 1;
    HeldTwo(table, pieces, live[0], 0, 1);
  }

  lemma HeldWhenWhole(live: seq<nat>, pieces: seq<seq<byte>>, j: nat)
    requires |pieces| == 1 <= |live| && Distinct(live) && j < |live|
    ensures Held(FileTable(live, pieces), pieces, live[j]) == Slots(pieces, Share(|live|, 1, j))
  {
    if |live| == 1 {
      HeldBySingle(live, pieces);
    } else {
      FileTableAt(live, pieces, 0);
      FileTableAt(live, pieces, 1);
      assert live[0] != live[1];
      if j <= 1 {
        HeldOne(FileTable(live, pieces), pieces, live[j], j);
      } else {
        assert live[0] != live[j] && live[1] != live[j];
        HeldNone(FileTable(live, pieces), pieces, live[j]);
      }
    }
  }

  /** A file is either kept whole or split over the whole list of nodes. */
  ghost predicate Spreads(live: seq<nat>, pieces: seq<seq<byte>>) {
    1 <= |pieces| <= |live| && (|pieces| == 1 || |pieces| == |live|) && Distinct(live)
  }

  /** Fan-out over a list of live nodes gives the j-th node exactly its share. */
  lemma HeldIsShare(live: seq<nat>, pieces: seq<seq<byte>>, j: nat)
    requires Spreads(live, pieces) && j < |live|
    ensures Held(FileTable(live, pieces), pieces, live[j]) == Slots(pieces, Share(|live|, |pieces|, j))
  {
    if |pieces| == 1 {
      HeldWhenWhole(live, pieces, j);
    } else {
      HeldWhenSplit(live, pieces, j);
    }
  }

  lemma HeldByOthers(live: seq<nat>, pieces: seq<seq<byte>>, n: nat)
    requires 1 <= |pieces| <= |live| && n !in live
    ensures Held(FileTable(live, pieces), pieces, n) == []
  {
    var table := FileTable(live, pieces);
    forall p: nat | p < |table|
      ensures table[p].node != n
    {
      FileTableAt(live, pieces, p);
    }
    HeldNone(table, pieces, n);
  }

  /** Two-slot capacity and order: over a whole fan-out to two or more nodes, every node is sent at most
      two fragments, so no occupied slot is overwritten, and slot 0 gets the smaller id. */
  lemma TwoSlotsInOrder(live: seq<nat>, pieces: seq<seq<byte>>, n: nat)
    requires Spreads(live, pieces) && |live| >= 2
    ensures var held := Held(FileTable(live, pieces), pieces, n);
            |held| <= 2 && (|held| == 2 ==> held[0].id < held[1].id)
  {
    if n in live {
      var j :| 0 <= j < |live| && live[j] == n;
      HeldIsShare(live, pieces, j);
    } else {
      HeldByOthers(live, pieces, n);
    }
  }

  /** None of these pieces has a size divisible by the bucket size, so each can be transferred. */
  predicate AllSendable(pieces: seq<seq<byte>>) {
    forall i :: 0 <= i < |pieces| ==> |pieces[i]| % 4096 != 0
  }

  /** Every fragment has a replica away from the index, so all of them have to be transferred. */
  lemma SpreadTransportable(live: seq<nat>, pieces: seq<seq<byte>>, me: nat)
    requires 1 <= |pieces| <= |live| && Distinct(live) && (|live| >= 2 || me !in live)
    ensures AllTransportable(FileTable(live, pieces), me) <==> AllSendable(pieces)
  {
    var table := FileTable(live, pieces);
    forall p: nat | p < |table|
      ensures table[p].size == |pieces[p / 2]|
    {
      FileTableAt(live, pieces, p);
    }
    if AllTransportable(table, me) {
      forall i: nat | i < |pieces|
        ensures |pieces[i]| % 4096 != 0
      {
        FileTableAt(live, pieces, 2 * i);
        FileTableAt(live, pieces, 2 * i + 1);
        EvenOdd(i);
        assert Transportable(table[2 * i], me) && Transportable(table[2 * i + 1], me);
        assert live[i] in live && live[NextLive(i, |live|)] in live;
      }
    }
  }
}
