/** What every node holds after a fan-out, whether all transfers complete or not. A piece that cannot be transferred
    leaves an opened container and nothing in it; what the index addresses to a waiting node is never sent. */
module Leftovers {
  import opened Types
  import opened Transport
  import opened Placement
  import opened Storage
  import opened Hangs

  /** The fragments that arrive at node n, in table order: its own if it is the index, otherwise those that can be
      transferred. */
  function Arrived(table: seq<Pointer>, pieces: seq<seq<byte>>, me: nat, n: nat): (arrived: seq<Slot>)
    requires GoodTable(table, pieces)
    ensures forall k :: 0 <= k < |arrived| ==> arrived[k].id != 0
  {
    if table == [] then []
    else
      var last := table[|table| - 1];
      Arrived(table[..|table| - 1], pieces, me, n)
      + if last.node == n && (n == me || last.size % 4096 != 0) then [Slot(last.fragment, pieces[last.fragment - 1])]
        else []
  }

  predicate Addressed(table: seq<Pointer>, n: nat) {
    exists k :: 0 <= k < |table| && table[k].node == n
  }

  /** What node n has gained after these entries, as long as the index was not lost over them: a container if it is the
      index or any entry was addressed to it, with the fragments that arrived. */
  function GainedSoFar(m: Meta, table: seq<Pointer>, pieces: seq<seq<byte>>, me: nat, n: nat): FileStore
    requires GoodTable(table, pieces)
  {
    GainOf(m, Arrived(table, pieces, me, n), n == me || Addressed(table, n))
  }

  predicate NodeLeft(before: Stores, after: Stores, m: Meta, table: seq<Pointer>, pieces: seq<seq<byte>>, me: nat,
                     n: nat)
    requires GoodTable(table, pieces)
  {
    n in before && n in after && after[n] == before[n] + GainedSoFar(m, table, pieces, me, n)
  }

  ghost predicate LeftBehind(before: Stores, after: Stores, m: Meta, table: seq<Pointer>, pieces: seq<seq<byte>>,
                             me: nat)
    requires GoodTable(table, pieces)
  {
    after.Keys == before.Keys && forall n :: n in before ==> NodeLeft(before, after, m, table, pieces, me, n)
  }

  // ---------------------------------------------------------------- one entry

  lemma ArrivedLast(front: seq<Pointer>, pieces: seq<seq<byte>>, me: nat, p: Pointer, n: nat)
    requires GoodTable(front, pieces) && GoodPointer(p, pieces) && GoodTable(front + [p], pieces)
    ensures Arrived(front + [p], pieces, me, n) ==
            if p.node == n && Transportable(p, me) then
              Arrived(front, pieces, me, n) + [Slot(p.fragment, pieces[p.fragment - 1])]
            else Arrived(front, pieces, me, n)
  {
    assert (front + [p])[..|front + [p]| - 1] == front;
    assert Arrived(front, pieces, me, n) + [] == Arrived(front, pieces, me, n);
  }

  lemma AddressedLast(front: seq<Pointer>, p: Pointer, n: nat)
    ensures Addressed(front + [p], n) <==> Addressed(front, n) || p.node == n
  {
    var table := front + [p];
    assert table[|front|] == p && forall k :: 0 <= k < |front| ==> table[k] == front[k];
  }

  /** An announced fragment makes a node open a container, if it has none yet. */
  lemma AnnouncedExtends(before: FileStore, m: Meta, held: seq<Slot>, mine: bool)
    requires NotIn(before, m.fileId)
    ensures Announced(before + GainOf(m, held, mine), m) == before + GainOf(m, held, true)
  {
    if held != [] || mine {
      FindLast(before, WithSlots(m, held));
    } else {
      assert before + [] == before;
    }
  }

  /** What entry p, which does not cost the index, makes of the store of node n. */
  function StoreAfter(store: FileStore, m: Meta, pieces: seq<seq<byte>>, p: Pointer, me: nat, n: nat): FileStore
    requires GoodPointer(p, pieces)
  {
    if p.node != n then store
    else if Transportable(p, me) then StoreFragment(store, m, p.fragment, pieces[p.fragment - 1])
    else Announced(store, m)
  }

  /** What entry p makes of the node n it is addressed to. */
  lemma AddresseeGains(before: FileStore, m: Meta, pieces: seq<seq<byte>>, front: seq<Pointer>, p: Pointer, me: nat,
                       n: nat)
    requires GoodTable(front, pieces) && GoodPointer(p, pieces) && GoodTable(front + [p], pieces)
    requires NotIn(before, m.fileId) && p.node == n
    ensures Same(StoreAfter(before + GainedSoFar(m, front, pieces, me, n), m, pieces, p, me, n),
                 before + GainedSoFar(m, front + [p], pieces, me, n))
  {
    var held, mine := Arrived(front, pieces, me, n), n == me || Addressed(front, n);
    ArrivedLast(front, pieces, me, p, n);
    AddressedLast(front, p, n);
    StoreExtends(before, m, held, mine, p.fragment, pieces[p.fragment - 1]);
    AnnouncedExtends(before, m, held, mine);
  }

  lemma OthersGain(m: Meta, pieces: seq<seq<byte>>, front: seq<Pointer>, p: Pointer, me: nat, n: nat)
    requires GoodTable(front, pieces) && GoodPointer(p, pieces) && GoodTable(front + [p], pieces) && p.node != n
    ensures GainedSoFar(m, front + [p], pieces, me, n) == GainedSoFar(m, front, pieces, me, n)
  {
    ArrivedLast(front, pieces, me, p, n);
    AddressedLast(front, p, n);
  }

  /** The stores after one entry that does not cost the index. */
  lemma SendNextStores(st: FanoutState, v: IndexView, m: Meta, p: Pointer, piece: seq<byte>)
    requires Target(v, p) == p.node && p.node in st.stores && p.size == |piece|
    requires !SendNext(st, v, m, p, piece).blocked
    ensures SendNext(st, v, m, p, piece).stores ==
            st.stores[p.node := if Transportable(p, v.me) then StoreFragment(st.stores[p.node], m, p.fragment, piece)
                                else Announced(st.stores[p.node], m)]
  {
    TransferCompletes(piece);
  }

  lemma NodeStep(before: FileStore, m: Meta, pieces: seq<seq<byte>>, front: seq<Pointer>, p: Pointer, me: nat, n: nat)
    requires GoodTable(front, pieces) && GoodPointer(p, pieces) && GoodTable(front + [p], pieces)
    requires NotIn(before, m.fileId)
    ensures Same(StoreAfter(before + GainedSoFar(m, front, pieces, me, n), m, pieces, p, me, n),
                 before + GainedSoFar(m, front + [p], pieces, me, n))
  {
    if n == p.node {
      AddresseeGains(before, m, pieces, front, p, me, n);
    } else {
      OthersGain(m, pieces, front, p, me, n);
    }
  }

  /** Every node's store after one entry. */
  ghost predicate Steps(now: Stores, after: Stores, m: Meta, pieces: seq<seq<byte>>, p: Pointer, me: nat)
    requires GoodPointer(p, pieces)
  {
    after.Keys == now.Keys && forall n :: n in now ==> after[n] == StoreAfter(now[n], m, pieces, p, me, n)
  }

  lemma SendNextSteps(st: FanoutState, v: IndexView, m: Meta, pieces: seq<seq<byte>>, p: Pointer)
    requires GoodPointer(p, pieces) && CanReach(st.stores, v, p.node)
    requires !SendNext(st, v, m, p, pieces[p.fragment - 1]).blocked
    ensures Steps(st.stores, SendNext(st, v, m, p, pieces[p.fragment - 1]).stores, m, pieces, p, v.me)
  {
    TargetIsNode(st.stores, v, p);
    SendNextStores(st, v, m, p, pieces[p.fragment - 1]);
  }

  lemma LeftStep(stores: Stores, now: Stores, after: Stores, m: Meta, pieces: seq<seq<byte>>, front: seq<Pointer>,
                 p: Pointer, me: nat)
    requires GoodTable(front, pieces) && GoodPointer(p, pieces) && GoodTable(front + [p], pieces)
    requires FreshEverywhere(stores, m.fileId)
    requires LeftBehind(stores, now, m, front, pieces, me) && Steps(now, after, m, pieces, p, me)
    ensures LeftBehind(stores, after, m, front + [p], pieces, me)
  {
    forall n | n in stores
      ensures NodeLeft(stores, after, m, front + [p], pieces, me, n)
    {
      assert NodeLeft(stores, now, m, front, pieces, me, n);
      assert NotIn(stores[n], m.fileId);
      NodeStep(stores[n], m, pieces, front, p, me, n);
    }
  }

  lemma LeftNothing(stores: Stores, m: Meta, pieces: seq<seq<byte>>, me: nat)
    requires me in stores
    ensures LeftBehind(stores, Started(stores, me, m), m, [], pieces, me)
  {
    forall n | n in stores
      ensures NodeLeft(stores, Started(stores, me, m), m, [], pieces, me, n)
    {
      assert n != me ==> stores[n] == stores[n] + [];
    }
  }

  // ---------------------------------------------------------------- the whole table

  /** The run over these entries has not lost the index, and every node has what it should. */
  ghost predicate RunLeaves(run: FanoutState, stores: Stores, m: Meta, table: seq<Pointer>, pieces: seq<seq<byte>>,
                            me: nat)
    requires GoodTable(table, pieces)
  {
    !run.blocked && LeftBehind(stores, run.stores, m, table, pieces, me)
  }

  lemma NotBlocked(stores: Stores, v: IndexView, m: Meta, pieces: seq<seq<byte>>, table: seq<Pointer>)
    requires GoodTable(table, pieces) && v.me in stores && AllReachable(stores, v, table)
    requires !SomeAddressHung(table, v.me)
    ensures !FanoutRun(Started(stores, v.me, m), v, m, pieces, table).blocked
  {
    ReachableStarted(stores, v, m, table);
    RunHangs(Started(stores, v.me, m), v, m, pieces, table);
  }

  lemma RunLeavesNext(st: FanoutState, stores: Stores, v: IndexView, m: Meta, pieces: seq<seq<byte>>,
                      front: seq<Pointer>, p: Pointer)
    requires GoodTable(front, pieces) && GoodPointer(p, pieces) && GoodTable(front + [p], pieces)
    requires CanReach(stores, v, p.node) && FreshEverywhere(stores, m.fileId)
    requires !SendNext(st, v, m, p, pieces[p.fragment - 1]).blocked
    ensures RunLeaves(st, stores, m, front, pieces, v.me) ==>
              RunLeaves(SendNext(st, v, m, p, pieces[p.fragment - 1]), stores, m, front + [p], pieces, v.me)
  {
    if RunLeaves(st, stores, m, front, pieces, v.me) {
      SendNextSteps(st, v, m, pieces, p);
      LeftStep(stores, st.stores, SendNext(st, v, m, p, pieces[p.fragment - 1]).stores, m, pieces, front, p, v.me);
    }
  }

  lemma RunLeavesSame(run: FanoutState, run': FanoutState, stores: Stores, m: Meta, table: seq<Pointer>,
                      pieces: seq<seq<byte>>, me: nat)
    requires GoodTable(table, pieces) && Same(run, run')
    ensures RunLeaves(run', stores, m, table, pieces, me) ==> RunLeaves(run, stores, m, table, pieces, me)
  {
  }

  lemma LastEntry(stores: Stores, v: IndexView, m: Meta, pieces: seq<seq<byte>>, front: seq<Pointer>, p: Pointer)
    requires GoodTable(front, pieces) && GoodPointer(p, pieces) && GoodTable(front + [p], pieces)
    ensures Same(FanoutRun(stores, v, m, pieces, front + [p]),
                 SendNext(FanoutRun(stores, v, m, pieces, front), v, m, p, pieces[p.fragment - 1]))
  {
    assert (front + [p])[..|front|] == front && (front + [p])[..|front| + 1] == front + [p];
    FanoutPrefix(stores, v, m, pieces, front + [p], |front|);
  }

  lemma RunLeavesStep(stores: Stores, v: IndexView, m: Meta, pieces: seq<seq<byte>>, front: seq<Pointer>, p: Pointer)
    requires GoodTable(front, pieces) && GoodPointer(p, pieces) && GoodTable(front + [p], pieces)
    requires v.me in stores && AllReachable(stores, v, front + [p]) && FreshEverywhere(stores, m.fileId)
    requires CanReach(stores, v, p.node) && !SomeAddressHung(front + [p], v.me)
    ensures RunLeaves(FanoutRun(Started(stores, v.me, m), v, m, pieces, front), stores, m, front, pieces, v.me) ==>
              RunLeaves(FanoutRun(Started(stores, v.me, m), v, m, pieces, front + [p]), stores, m, front + [p], pieces,
                        v.me)
  {
    var started := Started(stores, v.me, m);
    NotBlocked(stores, v, m, pieces, front + [p]);
    LastEntry(started, v, m, pieces, front, p);
    var st := FanoutRun(started, v, m, pieces, front);
    RunLeavesNext(st, stores, v, m, pieces, front, p);
    RunLeavesSame(FanoutRun(started, v, m, pieces, front + [p]), SendNext(st, v, m, p, pieces[p.fragment - 1]), stores,
                  m, front + [p], pieces, v.me);
  }

  /** As long as the index is not lost, every node has gained, besides what it held before, exactly the fragments of
      this table that arrived there, in table order; and a container as soon as one was addressed to it. */
  lemma {:induction false} RunStores(stores: Stores, v: IndexView, m: Meta, pieces: seq<seq<byte>>, table: seq<Pointer>)
    requires GoodTable(table, pieces) && v.me in stores && AllReachable(stores, v, table)
    requires FreshEverywhere(stores, m.fileId) && !SomeAddressHung(table, v.me)
    ensures RunLeaves(FanoutRun(Started(stores, v.me, m), v, m, pieces, table), stores, m, table, pieces, v.me)
  {
    if table == [] {
      LeftNothing(stores, m, pieces, v.me);
    } else {
      var front, p := table[..|table| - 1], table[|table| - 1];
      FrontLast(table);
      PrefixGood(stores, v, pieces, table);
      AddressHungLast(front, p, v.me);
      RunStores(stores, v, m, pieces, front);
      RunLeavesStep(stores, v, m, pieces, front, p);
    }
  }

  lemma BlockingKeepsStores(st: FanoutState, v: IndexView, m: Meta, p: Pointer, piece: seq<byte>)
    requires SendNext(st, v, m, p, piece).blocked
    ensures SendNext(st, v, m, p, piece).stores == st.stores
  {
  }

  /** If entry k is the first that is addressed to a waiting node, the nodes are left with what the entries before it
      gave them. */
  lemma StoresAt(stores: Stores, v: IndexView, m: Meta, pieces: seq<seq<byte>>, table: seq<Pointer>, k: nat)
    requires GoodTable(table, pieces) && v.me in stores && AllReachable(stores, v, table)
    requires FreshEverywhere(stores, m.fileId)
    requires k < |table| && AddressesHung(table, v.me, k) && !SomeAddressHung(table[..k], v.me)
    ensures LeftBehind(stores, FanoutRun(Started(stores, v.me, m), v, m, pieces, table).stores, m, table[..k], pieces,
                       v.me)
  {
    var started := Started(stores, v.me, m);
    PrefixReaches(stores, v, table, k);
    RunStores(stores, v, m, pieces, table[..k]);
    ReachableStarted(stores, v, m, table);
    BlockedRightAt(started, v, m, pieces, table, k);
    FanoutPrefix(started, v, m, pieces, table, k);
    BlockingKeepsStores(FanoutRun(started, v, m, pieces, table[..k]), v, m, table[k], pieces[table[k].fragment - 1]);
    BlockedForGood(started, v, m, pieces, table, k + 1);
  }

  lemma PrefixReaches(stores: Stores, v: IndexView, table: seq<Pointer>, k: nat)
    requires AllReachable(stores, v, table) && k <= |table|
    ensures AllReachable(stores, v, table[..k])
  {
  }

  lemma BlockedRightAt(stores: Stores, v: IndexView, m: Meta, pieces: seq<seq<byte>>, table: seq<Pointer>, k: nat)
    requires GoodTable(table, pieces) && v.me in stores && AllReachable(stores, v, table)
    requires k < |table| && AddressesHung(table, v.me, k)
    ensures FanoutRun(stores, v, m, pieces, table[..k + 1]).blocked
  {
    var front := table[..k + 1];
    PrefixReaches(stores, v, table, k + 1);
    assert front[..k] == table[..k] && front[k] == table[k];
    assert AddressesHung(front, v.me, k);
    RunHangs(stores, v, m, pieces, front);
  }
}
