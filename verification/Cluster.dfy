/** Storing and fetching a file across the network: SERVER_INDEX_HANDLE_NEW_FILE with the fan-out, and
    SERVER_INDEX_REQUEST_FRAGMENTS with the requester's SERVER_WAIT_REQUEST_FRAGMENTS. */
module Cluster {
  import opened Types
  import opened Split
  import opened Transport
  import opened Placement
  import opened Selection
  import opened Storage

  datatype File = File(name: string, data: seq<byte>)

  /** One file of the index: its placement table. */
  datatype IndexEntry = IndexEntry(fileId: nat, table: seq<Pointer>)

  /** The stores of all live nodes, and the index kept by the index node. */
  datatype System = System(stores: Stores, index: seq<IndexEntry>)

  // ---------------------------------------------------------------- lookups

  function Lookup(store: FileStore, fileId: nat): Option<Container> {
    match Find(store, fileId)
    case Some(i) => Some(store[i])
    case None => None
  }

  /** Position of the first container with this name. */
  function FindName(store: FileStore, name: string): (r: Option<nat>)
    ensures r.Some? ==> IsFirstName(store, name, r.value)
    ensures r.None? ==> forall i :: 0 <= i < |store| ==> store[i].name != name
  {
    if store == [] then None
    else
      match FindName(store[..|store| - 1], name)
      case Some(i) => Some(i)
      case None => if store[|store| - 1].name == name then Some(|store| - 1) else None
  }

  predicate IsFirstName(store: FileStore, name: string, i: nat) {
    i < |store| && store[i].name == name && forall j :: 0 <= j < i ==> store[j].name != name
  }

  function LookupName(store: FileStore, name: string): Option<Container> {
    match FindName(store, name)
    case Some(i) => Some(store[i])
    case None => None
  }

  /** The first container with the name is the one that is found. */
  lemma FirstNameFound(store: FileStore, name: string, i: nat)
    requires IsFirstName(store, name, i)
    ensures LookupName(store, name) == Some(store[i])
  {
    assert FindName(store, name).Some?;
  }

  /** Table of the first entry with this file id. */
  function TableOf(index: seq<IndexEntry>, fileId: nat): Option<seq<Pointer>> {
    if index == [] then None
    else
      match TableOf(index[..|index| - 1], fileId)
      case Some(t) => Some(t)
      case None => if index[|index| - 1].fileId == fileId then Some(index[|index| - 1].table) else None
  }

  lemma LookupLast(store: FileStore, c: Container, fileId: nat)
    ensures Lookup(store + [c], fileId) ==
            if Lookup(store, fileId).Some? then Lookup(store, fileId)
            else if c.fileId == fileId then Some(c) else None
  {
    assert (store + [c])[..|store + [c]| - 1] == store;
  }

  lemma TableOfLast(index: seq<IndexEntry>, e: IndexEntry, fileId: nat)
    ensures TableOf(index + [e], fileId) ==
            if TableOf(index, fileId).Some? then TableOf(index, fileId)
            else if e.fileId == fileId then Some(e.table) else None
  {
    assert (index + [e])[..|index + [e]| - 1] == index;
  }

  // ---------------------------------------------------------------- names

  predicate HasName(f: File, name: string) {
    Stem(f.name) == Stem(name)
  }

  /** The first of these files with this name. */
  function FirstNamed(files: seq<File>, name: string): (r: Option<nat>)
    ensures r.Some? ==> FirstOfName(files, r.value, name)
    ensures r.None? ==> forall j :: 0 <= j < |files| ==> !HasName(files[j], name)
  {
    if files == [] then None
    else
      match FirstNamed(files[..|files| - 1], name)
      case Some(g) => Some(g)
      case None => if HasName(files[|files| - 1], name) then Some(|files| - 1) else None
  }

  predicate FirstOfName(files: seq<File>, g: nat, name: string) {
    g < |files| && HasName(files[g], name) && forall j :: 0 <= j < g ==> !HasName(files[j], name)
  }

  // ---------------------------------------------------------------- storing

  function MetaFor(f: File, fileId: nat, netSize: nat): Meta {
    Meta(Stem(f.name), fileId, |f.data|, FragmentCount(|f.data|, netSize))
  }

  function PiecesFor(f: File, netSize: nat): (pieces: seq<seq<byte>>)
    requires netSize > 0
    ensures |pieces| == FragmentCount(|f.data|, netSize)
  {
    Fragments(f.data, FragmentCount(|f.data|, netSize))
  }

  function TableFor(v: IndexView, f: File): seq<Pointer>
    requires Sized(v) && v.netSize > 0
  {
    Placed(v, FragmentSizes(|f.data|, FragmentCount(|f.data|, v.netSize)))
  }

  /** The placement loops give the index a table it can fan out. */
  predicate CanPlace(s: System, v: IndexView, f: File) {
    && Sized(v) && v.netSize > 0 && v.me in s.stores
    && GoodTable(TableFor(v, f), PiecesFor(f, v.netSize))
    && AllReachable(Started(s.stores, v.me, MetaFor(f, |s.stores[v.me]| + 1, v.netSize)), v, TableFor(v, f))
  }

  /** A client stores a file: it is uploaded to the index, given the next id, placed and fanned out.
      None: the upload never completes, or some node never gets its piece. */
  function PutFile(s: System, v: IndexView, f: File): Option<System>
    requires CanPlace(s, v, f)
  {
    var fileId := |s.stores[v.me]| + 1;
    var m := MetaFor(f, fileId, v.netSize);
    var table := TableFor(v, f);
    if Delivered(f.data).None? then None
    else
      match Fanout(Started(s.stores, v.me, m), v, m, PiecesFor(f, v.netSize), table)
      case None => None
      case Some(stores) => Some(System(stores, s.index + [IndexEntry(fileId, table)]))
  }

  // ---------------------------------------------------------------- fetching

  /** The slot a node serves fragment f from. */
  function ServedSlot(c: Container, f: nat): Option<seq<byte>> {
    if c.s0.id == f then Some(c.s0.data) else if c.s1.id == f then Some(c.s1.data) else None
  }

  /** Offset of fragment f of a file of this size, as the requester computes it. */
  function WriteAt(size: nat, count: nat, f: nat, data: seq<byte>): Option<Write>
    requires count > 0
  {
    if f == 0 then None else Some(Write(size / count * (f - 1), data))
  }

  /** A fragment sent from node n to the requester. */
  function Remote(stores: Stores, n: nat, fileId: nat, size: nat, count: nat, f: nat): Option<Write>
    requires count > 0
  {
    if n !in stores || Lookup(stores[n], fileId).None? then None
    else
      match ServedSlot(Lookup(stores[n], fileId).value, f)
      case None => None
      case Some(data) => if Delivered(data).None? then None else WriteAt(size, count, f, Delivered(data).value)
  }

  /** The requester told to use its own copy: slot 0 if the id matches, slot 1 otherwise. */
  function Local(stores: Stores, n: nat, fileId: nat, count: nat, f: nat): Option<Write>
    requires count > 0
  {
    if n !in stores || Lookup(stores[n], fileId).None? then None
    else
      var c := Lookup(stores[n], fileId).value;
      var slot := if c.s0.id == f then c.s0 else c.s1;
      WriteAt(c.size, count, slot.id, slot.data)
  }

  /** What the requester gets for one chosen table entry. None: it waits forever. */
  function Delivery(s: System, v: IndexView, requester: nat, fileId: nat, size: nat, count: nat,
                    p: Pointer): Option<Write>
    requires InTable(v, p.node) && 1 <= requester <= |v.ports| && count > 0
  {
    if NodeAt(v.ports[requester - 1]) != requester then None
    else if p.node == requester then Local(s.stores, requester, fileId, count, p.fragment)
    else if p.node == v.me then Remote(s.stores, v.me, fileId, size, count, p.fragment)
    else if p.node == 0 then None
    else Remote(s.stores, NodeAt(v.ports[p.node - 1]), fileId, size, count, p.fragment)
  }

  predicate AllArrive(deliveries: seq<Option<Write>>, size: nat) {
    forall k :: 0 <= k < |deliveries| ==> deliveries[k].Some? && Fits(deliveries[k].value, size)
  }

  /** Whatever arrives is written inside the buffer. */
  predicate WritesFit(deliveries: seq<Option<Write>>, size: nat) {
    forall k :: 0 <= k < |deliveries| ==> deliveries[k].Some? ==> Fits(deliveries[k].value, size)
  }

  /** Before the first fragment arrives the buffer is all dots. */
  function Dots(size: nat): (b: seq<byte>)
    ensures |b| == size
  {
    seq(size, _ => 46)
  }

  /** The writes in arrival order. */
  function Arrivals(deliveries: seq<Option<Write>>, order: seq<nat>, size: nat): (writes: seq<Write>)
    requires AllArrive(deliveries, size) && forall k :: 0 <= k < |order| ==> order[k] < |deliveries|
    ensures |writes| == |order| && forall k :: 0 <= k < |writes| ==> Fits(writes[k], size)
  {
    seq(|order|, k requires 0 <= k < |order| => deliveries[order[k]].value)
  }

  /** The name is known, and the table found for it can be read without leaving it or the peer table. */
  predicate CanSelect(s: System, v: IndexView, c: Container) {
    && TableOf(s.index, c.fileId).Some? && c.total > 0
    && |TableOf(s.index, c.fileId).value| == 2 * c.total
    && TableInBounds(v, TableOf(s.index, c.fileId).value)
  }

  function Deliveries(s: System, v: IndexView, requester: nat, c: Container): (d: seq<Option<Write>>)
    requires CanSelect(s, v, c) && 1 <= requester <= |v.ports|
    ensures |d| == c.total
  {
    var chosen := Select(v, TableOf(s.index, c.fileId).value);
    assert forall i :: 0 <= i < |chosen| ==> chosen[i] == Choice(v, TableOf(s.index, c.fileId).value, i);
    seq(c.total, i requires 0 <= i < c.total => Delivery(s, v, requester, c.fileId, c.size, c.total, chosen[i]))
  }

  /** What becomes of a get: the client gets the bytes; or is told that there is no such file; or waits forever for a
      fragment that does not come; or somebody reads or writes outside a table or buffer. */
  datatype GetResult = Returned(data: seq<byte>) | Rejected | Waiting | OutOfBounds

  /** A client fetches a file through node `requester`; `order` is the order in which fragments arrive. */
  ghost function GetFile(s: System, v: IndexView, requester: nat, name: string, order: seq<nat>): GetResult {
    if v.me !in s.stores then Waiting
    else
      match LookupName(s.stores[v.me], Stem(name))
      case None => Rejected
      case Some(c) =>
        if CanSelect(s, v, c) && 1 <= requester <= |v.ports| then Fetch(s, v, requester, c, order) else OutOfBounds
  }

  ghost function Fetch(s: System, v: IndexView, requester: nat, c: Container, order: seq<nat>): GetResult
    requires CanSelect(s, v, c) && 1 <= requester <= |v.ports|
  {
    var d := Deliveries(s, v, requester, c);
    if !WritesFit(d, c.size) then OutOfBounds
    else if AllArrive(d, c.size) && IsPermutation(order, c.total) then
      Returned(ApplyAll(Dots(c.size), Arrivals(d, order, c.size)))
    else Waiting
  }

  // ---------------------------------------------------------------- when fetching succeeds

  /** Node n has fragment f of the file. */
  predicate Holds(stores: Stores, n: nat, fileId: nat, size: nat, f: nat, piece: seq<byte>) {
    && n in stores && Lookup(stores[n], fileId).Some?
    && Lookup(stores[n], fileId).value.size == size
    && ServedSlot(Lookup(stores[n], fileId).value, f) == Some(piece)
  }

  /** The index's address for node n reaches n. */
  predicate Dials(v: IndexView, n: nat) {
    n == v.me || (1 <= n <= |v.ports| && NodeAt(v.ports[n - 1]) == n)
  }

  lemma DeliveryArrives(s: System, v: IndexView, requester: nat, fileId: nat, data: seq<byte>, count: nat, p: Pointer)
    requires 1 <= requester <= |v.ports| && Dials(v, requester) && requester != v.me
    requires 1 <= p.fragment <= count && p.node != 0 && InTable(v, p.node) && Dials(v, p.node)
    requires Holds(s.stores, p.node, fileId, |data|, p.fragment, Fragment(data, count, p.fragment))
    requires p.node != requester ==> |Fragment(data, count, p.fragment)| % 4096 != 0
    ensures Delivery(s, v, requester, fileId, |data|, count, p) == Some(FragmentWrite(data, count, p.fragment))
  {
  }

  /** A fragment that is asked from another node arrives, at its place in the file, exactly if that node has it and its
      size is not a multiple of 4096; otherwise the requester waits for it forever. */
  lemma DeliveryFromPeer(s: System, v: IndexView, requester: nat, fileId: nat, size: nat, count: nat, p: Pointer,
                         piece: seq<byte>)
    requires 1 <= requester <= |v.ports| && Dials(v, requester) && requester != v.me && 1 <= p.fragment <= count
    requires p.node != 0 && p.node != requester && InTable(v, p.node) && Dials(v, p.node)
    ensures Holds(s.stores, p.node, fileId, size, p.fragment, piece) && |piece| % 4096 != 0 ==>
              Delivery(s, v, requester, fileId, size, count, p) == Some(Write(size / count * (p.fragment - 1), piece))
    ensures Holds(s.stores, p.node, fileId, size, p.fragment, piece) && |piece| % 4096 == 0 ==>
              Delivery(s, v, requester, fileId, size, count, p) == None
    ensures p.node !in s.stores || Lookup(s.stores[p.node], fileId).None?
            || ServedSlot(Lookup(s.stores[p.node], fileId).value, p.fragment).None? ==>
              Delivery(s, v, requester, fileId, size, count, p) == None
  {
    assert Delivered(piece) == if |piece| % 4096 != 0 then Some(piece) else None;
  }

  /** Every chosen entry names the right fragment on a node that has it and can deliver it. */
  ghost predicate Served(s: System, v: IndexView, requester: nat, fileId: nat, data: seq<byte>, chosen: seq<Pointer>) {
    && chosen != []
    && forall i: nat :: i < |chosen| ==> ChoiceServed(s, v, requester, fileId, data, chosen, i)
  }

  ghost predicate ChoiceServed(s: System, v: IndexView, requester: nat, fileId: nat, data: seq<byte>,
                               chosen: seq<Pointer>, i: nat)
    requires i < |chosen|
  {
    var p := chosen[i];
    && p.fragment == i + 1 && p.node != 0 && InTable(v, p.node) && Dials(v, p.node)
    && Holds(s.stores, p.node, fileId, |data|, i + 1, Fragment(data, |chosen|, i + 1))
    && (p.node != requester ==> |Fragment(data, |chosen|, i + 1)| % 4096 != 0)
  }

  /** Fetching returns the file, whatever the arrival order, once every chosen entry can be served. */
  lemma GetReturns(s: System, v: IndexView, requester: nat, data: seq<byte>, c: Container, order: seq<nat>)
    requires CanSelect(s, v, c) && c.size == |data|
    requires 1 <= requester <= |v.ports| && Dials(v, requester) && requester != v.me
    requires Served(s, v, requester, c.fileId, data, Select(v, TableOf(s.index, c.fileId).value))
    requires IsPermutation(order, c.total)
    ensures Fetch(s, v, requester, c, order) == Returned(data)
  {
    var chosen := Select(v, TableOf(s.index, c.fileId).value);
    var d := Deliveries(s, v, requester, c);
    forall i: nat | i < c.total
      ensures d[i] == Some(FragmentWrite(data, c.total, i + 1))
    {
      assert ChoiceServed(s, v, requester, c.fileId, data, chosen, i);
      DeliveryArrives(s, v, requester, c.fileId, data, c.total, chosen[i]);
    }
    ArrivalsRebuild(d, data, order);
  }

  lemma ArrivalsRebuild(d: seq<Option<Write>>, data: seq<byte>, order: seq<nat>)
    requires |d| > 0 && IsPermutation(order, |d|)
    requires forall i: nat :: i < |d| ==> d[i] == Some(FragmentWrite(data, |d|, i + 1))
    ensures AllArrive(d, |data|)
    ensures ApplyAll(Dots(|data|), Arrivals(d, order, |data|)) == data
  {
    var arrivals: seq<nat> := seq(|order|, k requires 0 <= k < |order| => order[k] + 1);
    PigeonHole(order, |d|);
    forall f: nat | 1 <= f <= |d|
      ensures f in arrivals
    {
      assert f - 1 in order;
      var k :| 0 <= k < |order| && order[k] == f - 1;
      assert arrivals[k] == f;
    }
    ReassemblyInAnyOrder(Dots(|data|), data, |d|, arrivals);
    var writes := seq(|arrivals|, k requires 0 <= k < |arrivals| => FragmentWrite(data, |d|, arrivals[k]));
    assert Arrivals(d, order, |data|) == writes;
  }

  /** All choices but the i-th can be served. */
  ghost predicate ServedBut(s: System, v: IndexView, requester: nat, fileId: nat, data: seq<byte>, chosen: seq<Pointer>,
                            i: nat)
  {
    forall k: nat :: k < |chosen| ==> k != i ==> ChoiceServed(s, v, requester, fileId, data, chosen, k)
  }

  /** The requester is to get something from node n, and nobody answers at its address. */
  predicate AsksDead(s: System, v: IndexView, requester: nat, n: nat) {
    && n != requester && n != v.me && InTable(v, n)
    && (n == 0 || NodeAt(v.ports[n - 1]) !in s.stores)
  }

  /** If one chosen entry names a dead node and all others can be served, the requester waits forever. */
  lemma GetFails(s: System, v: IndexView, requester: nat, data: seq<byte>, c: Container, order: seq<nat>, i: nat)
    requires CanSelect(s, v, c) && c.size == |data| && i < c.total
    requires 1 <= requester <= |v.ports| && Dials(v, requester) && requester != v.me
    requires var chosen := Select(v, TableOf(s.index, c.fileId).value);
             AsksDead(s, v, requester, chosen[i].node) && ServedBut(s, v, requester, c.fileId, data, chosen, i)
    ensures Fetch(s, v, requester, c, order) == Waiting
  {
    var chosen := Select(v, TableOf(s.index, c.fileId).value);
    var d := Deliveries(s, v, requester, c);
    assert d[i] == Delivery(s, v, requester, c.fileId, c.size, c.total, chosen[i]);
    assert d[i] == None;
    forall k: nat | k < c.total && k != i
      ensures d[k] == Some(FragmentWrite(data, c.total, k + 1))
    {
      assert ChoiceServed(s, v, requester, c.fileId, data, chosen, k);
      DeliveryArrives(s, v, requester, c.fileId, data, c.total, chosen[k]);
    }
  }
}
