/** Fetching files from a ring that has lost a node other than its index. */
module Losses {
  import opened Types
  import opened Split
  import opened Placement
  import opened Selection
  import opened Storage
  import opened Cluster
  import opened PutPhase

  /** File g is the first one of its name. */
  predicate Leads(files: seq<File>, g: nat) {
    g < |files| && FirstOfName(files, g, files[g].name)
  }

  /** The store lists these files in order, with ids from 1 on. */
  predicate Lists(store: FileStore, files: seq<File>) {
    && |store| == |files|
    && forall i :: 0 <= i < |files| ==> store[i].fileId == i + 1 && store[i].name == Stem(files[i].name)
  }

  /** In a store that lists the files, a name finds the first file that has it. */
  lemma ListedName(store: FileStore, files: seq<File>, g: nat)
    requires Lists(store, files) && Leads(files, g)
    ensures LookupName(store, Stem(files[g].name)) == Some(store[g])
  {
    var name := Stem(files[g].name);
    forall i | 0 <= i < g
      ensures store[i].name != name
    {
      assert !HasName(files[i], files[g].name);
    }
    FirstNameFound(store, name, g);
  }

  /** In a store that lists the files, a name that none of them has is not found. */
  lemma UnlistedName(store: FileStore, files: seq<File>, name: string)
    requires Lists(store, files) && FirstNamed(files, name).None?
    ensures LookupName(store, Stem(name)).None?
  {
    forall i | 0 <= i < |store|
      ensures store[i].name != Stem(name)
    {
      assert !HasName(files[i], name);
    }
  }

  /** The live stores hold, of file g, what the full ring's nodes held. */
  ghost predicate Retains(stores: Stores, ring: nat, files: seq<File>, g: nat)
    requires ring >= 1
  {
    forall n :: n in stores ==>
      1 <= n <= ring
      && (Lookup(StoreOf(ring, files, n), g + 1).Some? ==>
            Lookup(stores[n], g + 1) == Lookup(StoreOf(ring, files, n), g + 1))
  }

  /** The i-th chosen entry names a live, reachable holder of fragment i + 1. */
  predicate GoodChoice(stores: Stores, v: IndexView, ring: nat, chosen: seq<Pointer>, i: nat) {
    && i < |chosen|
    && var p := chosen[i];
       && p.fragment == i + 1 && (p.node == i + 1 || p.node == Succ(ring, i + 1))
       && p.node in stores && InTable(v, p.node) && Dials(v, p.node)
  }

  lemma GoodChoiceServed(s: System, v: IndexView, ring: nat, files: seq<File>, g: nat, requester: nat,
                         chosen: seq<Pointer>, i: nat)
    requires ring >= 2 && g < |files| && Retains(s.stores, ring, files, g) && Transferable(ring, files[g])
    requires |chosen| == |Pieces(ring, files[g])| && GoodChoice(s.stores, v, ring, chosen, i)
    ensures ChoiceServed(s, v, requester, g + 1, files[g].data, chosen, i)
  {
    var f, n := files[g], chosen[i].node;
    LookupInStore(ring, files, n, g + 1);
    HoldersServe(ring, f, g + 1, i, n);
    GainIds(ring, f, g + 1, n);
    PieceIsFragment(ring, f, i);
  }

  /** The container that the index finds under the file's name, with the file's table beside it. */
  ghost predicate Known(s: System, v: IndexView, ring: nat, files: seq<File>, g: nat, table: seq<Pointer>)
    requires ring >= 1 && g < |files|
  {
    && v.me in s.stores
    && FindsFile(LookupName(s.stores[v.me], Stem(files[g].name)), ring, files, Some(g))
    && TableOf(s.index, g + 1) == Some(table) && |table| == 2 * FragmentCount(|files[g].data|, ring)
  }

  lemma KnownSelects(s: System, v: IndexView, ring: nat, files: seq<File>, g: nat, table: seq<Pointer>)
    requires ring >= 1 && g < |files| && Known(s, v, ring, files, g, table) && TableInBounds(v, table)
    ensures var c := LookupName(s.stores[v.me], Stem(files[g].name)).value;
            && CanSelect(s, v, c) && c.total == FragmentCount(|files[g].data|, ring) && c.size == |files[g].data|
            && forall requester, order :: 1 <= requester <= |v.ports| ==>
                 GetFile(s, v, requester, files[g].name, order) == Fetch(s, v, requester, c, order)
  {
  }

  lemma AllServed(s: System, v: IndexView, ring: nat, files: seq<File>, g: nat, requester: nat, chosen: seq<Pointer>)
    requires ring >= 2 && g < |files| && Retains(s.stores, ring, files, g) && Transferable(ring, files[g])
    requires |chosen| == |Pieces(ring, files[g])|
    requires forall i: nat :: i < |chosen| ==> GoodChoice(s.stores, v, ring, chosen, i)
    ensures Served(s, v, requester, g + 1, files[g].data, chosen)
  {
    var fileId, data := g + 1, files[g].data;
    forall i: nat | i < |chosen|
      ensures ChoiceServed(s, v, requester, fileId, data, chosen, i)
    {
      assert GoodChoice(s.stores, v, ring, chosen, i);
      GoodChoiceServed(s, v, ring, files, g, requester, chosen, i);
    }
  }

  /** If selection picks a live holder for every fragment, fetching returns the file in any arrival order. */
  lemma ServedReturns(s: System, v: IndexView, ring: nat, files: seq<File>, g: nat, requester: nat,
                      table: seq<Pointer>, order: seq<nat>)
    requires ring >= 1 && g < |files|
    requires 1 <= requester <= |v.ports| && Dials(v, requester) && requester != v.me
    requires Known(s, v, ring, files, g, table) && TableInBounds(v, table)
    requires Served(s, v, requester, g + 1, files[g].data, Select(v, table))
    requires IsPermutation(order, FragmentCount(|files[g].data|, ring))
    ensures GetFile(s, v, requester, files[g].name, order) == Returned(files[g].data)
  {
    var c := LookupName(s.stores[v.me], Stem(files[g].name)).value;
    KnownSelects(s, v, ring, files, g, table);
    GetReturns(s, v, requester, files[g].data, c, order);
  }

  // ---------------------------------------------------------------- nobody lost

  lemma FullViewChoices(stores: Stores, v: IndexView, ring: nat, f: File, i: nat)
    requires FullView(v, ring) && stores.Keys == RingNodes(ring) && i < |Pieces(ring, f)|
    ensures TableInBounds(v, RingTable(ring, f))
    ensures GoodChoice(stores, v, ring, Select(v, RingTable(ring, f)), i)
  {
    RingChoice(v, ring, Sizes(Pieces(ring, f)), i);
    var n := i + 1;
    assert n < ring ==> v.ports[n - 1] == AddressOf(n);
  }

  // ---------------------------------------------------------------- one node lost

  /** The index's view after node `lost` has died and its entry has been erased. If the index itself detected
      the death, its net size has been decremented twice. */
  ghost predicate LossView(v: IndexView, ring: nat, lost: nat) {
    && 1 <= lost < ring && ring >= 3
    && v.me == ring == |v.ports| && v.deathCount == 1 && v.knownPeers == ring - 1
    && v.netSize == (if lost == ring - 1 then ring - 2 else ring - 1)
    && v.ports[lost - 1] == 0
    && forall n: nat :: 1 <= n < ring && n != lost ==> v.ports[n - 1] == AddressOf(n)
  }

  function Without(s: System, lost: nat): System {
    System(s.stores - {lost}, s.index)
  }

  lemma AliveIff(v: IndexView, ring: nat, lost: nat, n: nat)
    requires LossView(v, ring, lost) && 1 <= n <= ring
    ensures Alive(v, n) <==> n != lost
    ensures n != lost ==> InTable(v, n) && Dials(v, n)
  {
    var address := AddressOf(n);
    assert n < ring && n != lost ==> v.ports[n - 1] == AddressOf(n);
  }

  /** The one case in which the primaries-only branch runs: four nodes, the index widowed, a split file. */
  predicate Unlucky(ring: nat, lost: nat, count: nat) {
    ring == 4 && lost == 3 && count == 4
  }

  lemma FallbackIff(v: IndexView, ring: nat, lost: nat, count: nat)
    requires LossView(v, ring, lost) && (count == 1 || count == ring)
    ensures UsesFallback(v, count) <==> !Unlucky(ring, lost, count)
  {
  }

  /** The node asked for fragment i + 1. */
  function Asked(v: IndexView, ring: nat, count: nat, i: nat): nat {
    if UsesFallback(v, count) && !Alive(v, i + 1) then Succ(ring, i + 1) else i + 1
  }

  lemma AskedSurvives(v: IndexView, ring: nat, lost: nat, count: nat, i: nat)
    requires LossView(v, ring, lost) && (count == 1 || count == ring) && i < count && !Unlucky(ring, lost, count)
    ensures var n := Asked(v, ring, count, i);
            On(ring, n) && n != lost && (n == i + 1 || n == Succ(ring, i + 1)) && InTable(v, n) && Dials(v, n)
  {
    FallbackIff(v, ring, lost, count);
    AliveIff(v, ring, lost, i + 1);
    AliveIff(v, ring, lost, Asked(v, ring, count, i));
  }

  /** With the fallback branch, every fragment of every file is asked from a live holder. */
  lemma ChoicesAfterLoss(stores: Stores, v: IndexView, ring: nat, lost: nat, f: File, i: nat)
    requires LossView(v, ring, lost) && stores.Keys == RingNodes(ring) && i < |Pieces(ring, f)|
    requires !Unlucky(ring, lost, |Pieces(ring, f)|)
    ensures TableInBounds(v, RingTable(ring, f))
    ensures GoodChoice(stores - {lost}, v, ring, Select(v, RingTable(ring, f)), i)
  {
    RingChoice(v, ring, Sizes(Pieces(ring, f)), i);
    AskedSurvives(v, ring, lost, |Pieces(ring, f)|, i);
  }

  /** The index of a complete ring lists all files. */
  lemma IndexLists(ring: nat, files: seq<File>)
    requires ring >= 1
    ensures Lists(StoreOf(ring, files, ring), files)
  {
    var store := StoreOf(ring, files, ring);
    IndexIdsAreSequential(ring, files);
    forall i: nat | i < |files|
      ensures store[i].name == Stem(files[i].name)
    {
      ContainerName(ring, files, i, store[i]);
    }
  }

  lemma ContainerName(ring: nat, files: seq<File>, i: nat, c: Container)
    requires ring >= 1 && c in StoreOf(ring, files, ring) && c.fileId == i + 1
    ensures i < |files| && c.name == Stem(files[i].name)
  {
    ContainersDescribe(ring, files, ring, c);
  }

  lemma IndexFindsName(ring: nat, files: seq<File>, g: nat)
    requires ring >= 1 && Leads(files, g)
    ensures FindsFile(LookupName(StoreOf(ring, files, ring), Stem(files[g].name)), ring, files, Some(g))
  {
    var store := StoreOf(ring, files, ring);
    IndexLists(ring, files);
    ListedName(store, files, g);
    ContainersDescribe(ring, files, ring, store[g]);
  }

  lemma IndexKnowsFile(s: System, v: IndexView, ring: nat, files: seq<File>, g: nat)
    requires ring >= 2 && v.me == ring && ring in s.stores
    requires s.stores[ring] == StoreOf(ring, files, ring) && s.index == IndexFor(ring, files)
    requires Leads(files, g)
    ensures Known(s, v, ring, files, g, RingTable(ring, files[g]))
  {
    IndexFindsName(ring, files, g);
    TableInIndex(ring, files, g + 1);
  }

  lemma SurvivorsRetain(s: System, ring: nat, lost: nat, files: seq<File>, g: nat)
    requires ring >= 1 && AsStored(s, ring, files)
    ensures Retains(s.stores, ring, files, g) && Retains(Without(s, lost).stores, ring, files, g)
  {
    StoredLayout(s, ring, files);
  }

  /** Put, then get, in a complete ring. */
  lemma GetFromFullRing(s: System, v: IndexView, ring: nat, files: seq<File>, g: nat, requester: nat, order: seq<nat>)
    requires FullView(v, ring) && AsStored(s, ring, files) && AllTransferable(ring, files)
    requires Leads(files, g) && 1 <= requester < ring && IsPermutation(order, FragmentCount(|files[g].data|, ring))
    ensures GetFile(s, v, requester, files[g].name, order) == Returned(files[g].data)
  {
    StoredLayout(s, ring, files);
    var f, table := files[g], RingTable(ring, files[g]);
    IndexKnowsFile(s, v, ring, files, g);
    SurvivorsRetain(s, ring, 0, files, g);
    RingChoice(v, ring, Sizes(Pieces(ring, f)), 0);
    forall i: nat | i < |Pieces(ring, f)|
      ensures GoodChoice(s.stores, v, ring, Select(v, table), i)
    {
      FullViewChoices(s.stores, v, ring, f, i);
    }
    var n := requester;
    assert v.ports[n - 1] == AddressOf(n) && Dials(v, requester);
    AllServed(s, v, ring, files, g, requester, Select(v, table));
    ServedReturns(s, v, ring, files, g, requester, table, order);
  }

  /** With the fallback branch the file comes back. */
  lemma LuckyLoss(s: System, v: IndexView, ring: nat, lost: nat, files: seq<File>, g: nat, requester: nat,
                  order: seq<nat>)
    requires LossView(v, ring, lost) && g < |files| && s.stores.Keys == RingNodes(ring)
    requires Known(Without(s, lost), v, ring, files, g, RingTable(ring, files[g]))
    requires Retains(Without(s, lost).stores, ring, files, g) && Transferable(ring, files[g])
    requires 1 <= requester < ring && requester != lost && IsPermutation(order, FragmentCount(|files[g].data|, ring))
    requires !Unlucky(ring, lost, |Pieces(ring, files[g])|)
    ensures GetFile(Without(s, lost), v, requester, files[g].name, order) == Returned(files[g].data)
  {
    var s', f, table := Without(s, lost), files[g], RingTable(ring, files[g]);
    RingChoice(v, ring, Sizes(Pieces(ring, f)), 0);
    forall i: nat | i < |Pieces(ring, f)|
      ensures GoodChoice(s'.stores, v, ring, Select(v, table), i)
    {
      ChoicesAfterLoss(s.stores, v, ring, lost, f, i);
    }
    AliveIff(v, ring, lost, requester);
    AllServed(s', v, ring, files, g, requester, Select(v, table));
    ServedReturns(s', v, ring, files, g, requester, table, order);
  }

  /** Put, lose a node other than the index, get: for every ring of at least three nodes, every list of files,
      every lost node, every surviving requester and every arrival order, the file comes back unchanged; with
      one exception, four nodes of which the third is lost, where a split file never comes back. No read
      leaves the tables in either case. */
  lemma GetAfterLoss(s: System, v: IndexView, ring: nat, lost: nat, files: seq<File>, g: nat, requester: nat,
                     order: seq<nat>)
    requires LossView(v, ring, lost) && AsStored(s, ring, files) && AllTransferable(ring, files)
    requires Leads(files, g) && 1 <= requester < ring && requester != lost
    requires IsPermutation(order, FragmentCount(|files[g].data|, ring))
    ensures Known(Without(s, lost), v, ring, files, g, RingTable(ring, files[g]))
    ensures TableInBounds(v, RingTable(ring, files[g]))
    ensures GetFile(Without(s, lost), v, requester, files[g].name, order) ==
            if Unlucky(ring, lost, FragmentCount(|files[g].data|, ring)) then Waiting else Returned(files[g].data)
  {
    StoredLayout(s, ring, files);
    var s', f := Without(s, lost), files[g];
    IndexKnowsFile(s', v, ring, files, g);
    SurvivorsRetain(s, ring, lost, files, g);
    RingChoice(v, ring, Sizes(Pieces(ring, f)), 0);
    if Unlucky(ring, lost, |Pieces(ring, f)|) {
      UnluckyLoss(s', v, ring, lost, files, g, requester, order);
    } else {
      LuckyLoss(s, v, ring, lost, files, g, requester, order);
    }
  }

  /** In the exception every fragment is asked from its first holder; that of the third one is dead. */
  lemma UnluckyChoice(s: System, v: IndexView, ring: nat, lost: nat, files: seq<File>, g: nat, requester: nat, i: nat)
    requires LossView(v, ring, lost) && g < |files| && Transferable(ring, files[g]) && i < |Pieces(ring, files[g])|
    requires Unlucky(ring, lost, |Pieces(ring, files[g])|) && s.stores.Keys == RingNodes(ring) - {lost}
    requires Retains(s.stores, ring, files, g)
    ensures TableInBounds(v, RingTable(ring, files[g]))
    ensures Select(v, RingTable(ring, files[g]))[i].node == i + 1
    ensures i + 1 != lost ==>
              ChoiceServed(s, v, requester, g + 1, files[g].data, Select(v, RingTable(ring, files[g])), i)
  {
    RingChoice(v, ring, Sizes(Pieces(ring, files[g])), i);
    FallbackIff(v, ring, lost, |Pieces(ring, files[g])|);
    if i + 1 != lost {
      AliveIff(v, ring, lost, i + 1);
      GoodChoiceServed(s, v, ring, files, g, requester, Select(v, RingTable(ring, files[g])), i);
    }
  }

  lemma UnluckyServed(s: System, v: IndexView, ring: nat, lost: nat, files: seq<File>, g: nat, requester: nat)
    requires LossView(v, ring, lost) && g < |files| && Transferable(ring, files[g])
    requires Unlucky(ring, lost, |Pieces(ring, files[g])|) && s.stores.Keys == RingNodes(ring) - {lost}
    requires Retains(s.stores, ring, files, g) && requester != lost
    ensures TableInBounds(v, RingTable(ring, files[g])) && lost <= |Pieces(ring, files[g])|
    ensures AsksDead(s, v, requester, Select(v, RingTable(ring, files[g]))[lost - 1].node)
    ensures ServedBut(s, v, requester, g + 1, files[g].data, Select(v, RingTable(ring, files[g])), lost - 1)
  {
    UnluckyChoice(s, v, ring, lost, files, g, requester, lost - 1);
    var fileId, data, chosen, dead := g + 1, files[g].data, Select(v, RingTable(ring, files[g])), lost - 1;
    forall k: nat | k < |chosen| && k != dead
      ensures ChoiceServed(s, v, requester, fileId, data, chosen, k)
    {
      UnluckyChoice(s, v, ring, lost, files, g, requester, k);
    }
  }

  /** If selection picks a live holder for every fragment but one, the client waits for that one forever. */
  lemma UnservedWaits(s: System, v: IndexView, ring: nat, files: seq<File>, g: nat, requester: nat,
                      table: seq<Pointer>, order: seq<nat>, i: nat)
    requires ring >= 1 && g < |files| && i < FragmentCount(|files[g].data|, ring)
    requires 1 <= requester <= |v.ports| && Dials(v, requester) && requester != v.me
    requires Known(s, v, ring, files, g, table) && TableInBounds(v, table)
    requires AsksDead(s, v, requester, Select(v, table)[i].node)
    requires ServedBut(s, v, requester, g + 1, files[g].data, Select(v, table), i)
    ensures GetFile(s, v, requester, files[g].name, order) == Waiting
  {
    var c := LookupName(s.stores[v.me], Stem(files[g].name)).value;
    KnownSelects(s, v, ring, files, g, table);
    GetFails(s, v, requester, files[g].data, c, order, i);
  }

  /** In the exception the client waits forever for the third fragment. */
  lemma UnluckyLoss(s: System, v: IndexView, ring: nat, lost: nat, files: seq<File>, g: nat, requester: nat,
                    order: seq<nat>)
    requires LossView(v, ring, lost) && g < |files| && Known(s, v, ring, files, g, RingTable(ring, files[g]))
    requires Retains(s.stores, ring, files, g) && Transferable(ring, files[g])
    requires s.stores.Keys == RingNodes(ring) - {lost} && 1 <= requester < ring && requester != lost
    requires Unlucky(ring, lost, |Pieces(ring, files[g])|)
    ensures GetFile(s, v, requester, files[g].name, order) == Waiting
  {
    UnluckyServed(s, v, ring, lost, files, g, requester);
    AliveIff(v, ring, lost, requester);
    UnservedWaits(s, v, ring, files, g, requester, RingTable(ring, files[g]), order, lost - 1);
  }
}
