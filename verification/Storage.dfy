/** The two-slot containers every node keeps, and SERVER_INDEX_FANOUT_FRAGMENTS, which fills them. */
module Storage {
  import opened Types
  import opened Split
  import opened Placement
  import opened Transport

  /** A stored fragment; id 0 marks a free slot. */
  datatype Slot = Slot(id: nat, data: seq<byte>)

  const FREE: Slot := Slot(0, [])

  datatype Container = Container(name: string, fileId: nat, size: nat, total: nat, s0: Slot, s1: Slot)

  /** What is kept of a file name: a C string of at most 199 characters. */
  function Stem(name: string): (r: string)
    ensures r <= name && |r| <= 199 && '\0' !in r
    ensures r == name || |r| == 199 || name[|r|] == '\0'
  {
    UpToNul(name, 199)
  }

  function UpToNul(s: string, k: nat): (r: string)
    ensures r <= s && |r| <= k && '\0' !in r
    ensures r == s || |r| == k || s[|r|] == '\0'
  {
    if s == [] || k == 0 || s[0] == '\0' then [] else [s[0]] + UpToNul(s[1..], k - 1)
  }

  /** The files a node knows about, in the order it learnt of them. */
  type FileStore = seq<Container>

  /** What is known about a file apart from its fragments. */
  datatype Meta = Meta(name: string, fileId: nat, size: nat, total: nat)

  function Fresh(m: Meta): Container {
    Container(m.name, m.fileId, m.size, m.total, FREE, FREE)
  }

  /** xfileserver_add_fragment: slot 0 if it is free, otherwise slot 1, occupied or not. */
  function AddFragment(c: Container, id: nat, data: seq<byte>): Container {
    if c.s0.id == 0 then c.(s0 := Slot(id, data)) else c.(s1 := Slot(id, data))
  }

  /** Position of the first container with this file id. */
  function Find(store: FileStore, fileId: nat): (r: Option<nat>)
    ensures r.Some? ==> IsFirstId(store, fileId, r.value)
    ensures r.None? ==> NotIn(store, fileId)
  {
    if store == [] then None
    else
      match Find(store[..|store| - 1], fileId)
      case Some(i) => Some(i)
      case None => if store[|store| - 1].fileId == fileId then Some(|store| - 1) else None
  }

  predicate IsFirstId(store: FileStore, fileId: nat, i: nat) {
    i < |store| && store[i].fileId == fileId && forall j :: 0 <= j < i ==> store[j].fileId != fileId
  }

  predicate NotIn(store: FileStore, fileId: nat) {
    forall i :: 0 <= i < |store| ==> store[i].fileId != fileId
  }

  /** A node is told to store a fragment: it opens a container on first contact with the file. */
  function StoreFragment(store: FileStore, m: Meta, id: nat, data: seq<byte>): FileStore {
    match Find(store, m.fileId)
    case Some(i) => store[i := AddFragment(store[i], id, data)]
    case None => store + [AddFragment(Fresh(m), id, data)]
  }

  // ---------------------------------------------------------------- fan-out

  /** The entry describes one of these pieces. */
  predicate GoodPointer(p: Pointer, pieces: seq<seq<byte>>) {
    1 <= p.fragment <= |pieces| && p.size == |pieces[p.fragment - 1]|
  }

  predicate GoodTable(table: seq<Pointer>, pieces: seq<seq<byte>>) {
    forall k :: 0 <= k < |table| ==> GoodPointer(table[k], pieces)
  }

  type Stores = map<nat, FileStore>

  /** The index puts its own fragments away directly and sends the others to the address in its peer
      table. None: the node at that address never gets its piece. */
  function FanoutStep(stores: Stores, v: IndexView, m: Meta, pieces: seq<seq<byte>>, p: Pointer): Option<Stores>
    requires GoodPointer(p, pieces)
    requires p.node != 0 && InTable(v, p.node) && v.me in stores
  {
    var piece := pieces[p.fragment - 1];
    if p.node == v.me then
      Some(stores[v.me := StoreFragment(stores[v.me], m, p.fragment, piece)])
    else
      var target := NodeAt(v.ports[p.node - 1]);
      if target !in stores || Delivered(piece).None? then None
      else Some(stores[target := StoreFragment(stores[target], m, p.fragment, Delivered(piece).value)])
  }

  predicate CanReach(stores: Stores, v: IndexView, n: nat) {
    && n != 0 && InTable(v, n) && n in stores
    && (n != v.me ==> NodeAt(v.ports[n - 1]) == n)
  }

  predicate AllReachable(stores: Stores, v: IndexView, table: seq<Pointer>) {
    forall k :: 0 <= k < |table| ==> CanReach(stores, v, table[k].node)
  }

  /** What the nodes hold after a fan-out in which every node gets its pieces. None: some node never does; FanoutRun
      says what happens then. */
  function Fanout(stores: Stores, v: IndexView, m: Meta, pieces: seq<seq<byte>>,
                  table: seq<Pointer>): (r: Option<Stores>)
    requires GoodTable(table, pieces)
    requires v.me in stores && AllReachable(stores, v, table)
    ensures r.Some? ==> r.value.Keys == stores.Keys
  {
    if table == [] then Some(stores)
    else
      match Fanout(stores, v, m, pieces, table[..|table| - 1])
      case None => None
      case Some(s) => FanoutStep(s, v, m, pieces, table[|table| - 1])
  }

  /** How far a fan-out has got: what the nodes hold, which of them wait forever for bytes that do not come, and
      whether the index waits forever for one of these to answer. */
  datatype FanoutState = FanoutState(stores: Stores, hung: set<nat>, blocked: bool)

  /** The node that gets the piece of an entry. */
  function Target(v: IndexView, p: Pointer): nat {
    if p.node == v.me then v.me
    else if 1 <= p.node <= |v.ports| then NodeAt(v.ports[p.node - 1]) else 0
  }

  /** A node that hears of a fragment opens a container at once; the bytes come later. */
  function Announced(store: FileStore, m: Meta): FileStore {
    if Find(store, m.fileId).Some? then store else store + [Fresh(m)]
  }

  /** The next entry of a fan-out. The index does not wait for a transfer to end, so it goes on after one that never
      does; but it gets no answer from a node that still waits in an earlier transfer. */
  function SendNext(st: FanoutState, v: IndexView, m: Meta, p: Pointer, piece: seq<byte>): FanoutState {
    var n := Target(v, p);
    if st.blocked || n !in st.stores then st
    else if n == v.me then st.(stores := st.stores[n := StoreFragment(st.stores[n], m, p.fragment, piece)])
    else if n in st.hung then st.(blocked := true)
    else
      match Transfer(piece)
      case None => st.(stores := st.stores[n := Announced(st.stores[n], m)], hung := st.hung + {n})
      case Some(got) => st.(stores := st.stores[n := StoreFragment(st.stores[n], m, p.fragment, got)])
  }

  /** The whole fan-out, come what may. */
  function FanoutRun(stores: Stores, v: IndexView, m: Meta, pieces: seq<seq<byte>>, table: seq<Pointer>): FanoutState
    requires GoodTable(table, pieces)
  {
    if table == [] then FanoutState(stores, {}, false)
    else
      var last := table[|table| - 1];
      SendNext(FanoutRun(stores, v, m, pieces, table[..|table| - 1]), v, m, last, pieces[last.fragment - 1])
  }

  /** What a run in which nobody hangs has left behind. */
  function Completed(st: FanoutState): Option<Stores> {
    if st.hung == {} && !st.blocked then Some(st.stores) else None
  }

  /** What the next entry does to the outcome. */
  function StepFrom(r: Option<Stores>, v: IndexView, m: Meta, pieces: seq<seq<byte>>, p: Pointer): Option<Stores> {
    match r
    case None => None
    case Some(s) =>
      if GoodPointer(p, pieces) && v.me in s && CanReach(s, v, p.node) then FanoutStep(s, v, m, pieces, p) else None
  }

  lemma CompletedStep(st: FanoutState, v: IndexView, m: Meta, pieces: seq<seq<byte>>, p: Pointer)
    requires GoodPointer(p, pieces) && v.me in st.stores && CanReach(st.stores, v, p.node)
    ensures Completed(SendNext(st, v, m, p, pieces[p.fragment - 1])) == StepFrom(Completed(st), v, m, pieces, p)
    ensures SendNext(st, v, m, p, pieces[p.fragment - 1]).stores.Keys == st.stores.Keys
  {
    TransferCompletes(pieces[p.fragment - 1]);
  }

  lemma FanoutLast(stores: Stores, v: IndexView, m: Meta, pieces: seq<seq<byte>>, table: seq<Pointer>)
    requires table != [] && GoodTable(table, pieces) && v.me in stores && AllReachable(stores, v, table)
    ensures Same(Fanout(stores, v, m, pieces, table),
                 StepFrom(Fanout(stores, v, m, pieces, table[..|table| - 1]), v, m, pieces, table[|table| - 1]))
    ensures Same(FanoutRun(stores, v, m, pieces, table),
                 SendNext(FanoutRun(stores, v, m, pieces, table[..|table| - 1]), v, m, table[|table| - 1],
                          pieces[table[|table| - 1].fragment - 1]))
  {
    PrefixGood(stores, v, pieces, table);
  }

  lemma PrefixGood(stores: Stores, v: IndexView, pieces: seq<seq<byte>>, table: seq<Pointer>)
    requires table != [] && GoodTable(table, pieces) && AllReachable(stores, v, table)
    ensures GoodTable(table[..|table| - 1], pieces) && AllReachable(stores, v, table[..|table| - 1])
    ensures GoodPointer(table[|table| - 1], pieces) && CanReach(stores, v, table[|table| - 1].node)
  {
  }

  /** Stores r and the state st agree: the same nodes, and st has completed with r. */
  predicate Agree(st: FanoutState, r: Option<Stores>, nodes: set<nat>) {
    st.stores.Keys == nodes && Same(Completed(st), r)
  }

  lemma AgreeStep(st: FanoutState, r: Option<Stores>, stores: Stores, v: IndexView, m: Meta, pieces: seq<seq<byte>>,
                  p: Pointer)
    requires GoodPointer(p, pieces) && v.me in stores && CanReach(stores, v, p.node)
    ensures Agree(st, r, stores.Keys) ==>
              Agree(SendNext(st, v, m, p, pieces[p.fragment - 1]), StepFrom(r, v, m, pieces, p), stores.Keys)
  {
    if Agree(st, r, stores.Keys) {
      CompletedStep(st, v, m, pieces, p);
    }
  }

  lemma AgreeSame(st: FanoutState, st': FanoutState, r: Option<Stores>, r': Option<Stores>, nodes: set<nat>)
    requires Same(st, st') && Same(r, r')
    ensures Agree(st', r', nodes) ==> Agree(st, r, nodes)
  {
  }

  lemma FanoutRunStep(stores: Stores, v: IndexView, m: Meta, pieces: seq<seq<byte>>, table: seq<Pointer>)
    requires table != [] && GoodTable(table, pieces) && v.me in stores && AllReachable(stores, v, table)
    ensures var front := table[..|table| - 1];
            && GoodTable(front, pieces) && AllReachable(stores, v, front)
            && (Agree(FanoutRun(stores, v, m, pieces, front), Fanout(stores, v, m, pieces, front), stores.Keys) ==>
                  Agree(FanoutRun(stores, v, m, pieces, table), Fanout(stores, v, m, pieces, table), stores.Keys))
  {
    var front, last := table[..|table| - 1], table[|table| - 1];
    PrefixGood(stores, v, pieces, table);
    FanoutLast(stores, v, m, pieces, table);
    var st, r := FanoutRun(stores, v, m, pieces, front), Fanout(stores, v, m, pieces, front);
    AgreeStep(st, r, stores, v, m, pieces, last);
    AgreeSame(FanoutRun(stores, v, m, pieces, table), SendNext(st, v, m, last, pieces[last.fragment - 1]),
              Fanout(stores, v, m, pieces, table), StepFrom(r, v, m, pieces, last), stores.Keys);
  }

  /** Every node gets its pieces exactly if nobody ends up hanging. */
  lemma {:induction false} FanoutRunCompletes(stores: Stores, v: IndexView, m: Meta, pieces: seq<seq<byte>>,
                                              table: seq<Pointer>)
    requires GoodTable(table, pieces) && v.me in stores && AllReachable(stores, v, table)
    ensures Agree(FanoutRun(stores, v, m, pieces, table), Fanout(stores, v, m, pieces, table), stores.Keys)
  {
    if table != [] {
      FanoutRunStep(stores, v, m, pieces, table);
      FanoutRunCompletes(stores, v, m, pieces, table[..|table| - 1]);
    }
  }

  /** The index itself hangs only if some other node does. */
  lemma {:induction false} BlockedByHung(stores: Stores, v: IndexView, m: Meta, pieces: seq<seq<byte>>,
                                         table: seq<Pointer>)
    requires GoodTable(table, pieces)
    ensures FanoutRun(stores, v, m, pieces, table).blocked ==> FanoutRun(stores, v, m, pieces, table).hung != {}
  {
    if table != [] {
      BlockedByHung(stores, v, m, pieces, table[..|table| - 1]);
    }
  }

  /** The fan-out of a file. */
  method FanoutFile(stores: Stores, v: IndexView, m: Meta, data: seq<byte>, table: seq<Pointer>)
    returns (r: FanoutState)
    requires |table| >= 2 && |table| % 2 == 0 && GoodTable(table, Fragments(data, |table| / 2))
    ensures r == FanoutRun(stores, v, m, Fragments(data, |table| / 2), table)
  {
    ghost var pieces := Fragments(data, |table| / 2);
    forall i: nat | i < |pieces|
      ensures IsSlice(data, pieces, i)
    {
      FragmentIsSlice(data, |table| / 2, i);
    }
    r := FanoutLoop(stores, v, m, data, |table| / 2, table, pieces);
  }

  /** Piece i lies at the offset the code computes for fragment i + 1. */
  predicate IsSlice(data: seq<byte>, pieces: seq<seq<byte>>, i: nat)
    requires i < |pieces|
  {
    var offset := |data| / |pieces| * i;
    0 <= offset && offset + |pieces[i]| <= |data| && pieces[i] == data[offset..offset + |pieces[i]|]
  }

  lemma FragmentIsSlice(data: seq<byte>, count: nat, i: nat)
    requires i < count
    ensures IsSlice(data, Fragments(data, count), i)
  {
    RangesTile(|data|, count, i + 1);
    assert Fragments(data, count)[i + 1 - 1] == Fragment(data, count, i + 1);
  }

  /** The fan-out loop: every piece is cut out of the file buffer at the entry's offset. */
  method FanoutLoop(stores: Stores, v: IndexView, m: Meta, data: seq<byte>, count: nat, table: seq<Pointer>,
                    ghost pieces: seq<seq<byte>>)
    returns (r: FanoutState)
    requires count == |pieces| > 0 && GoodTable(table, pieces)
    requires forall i: nat :: i < |pieces| ==> IsSlice(data, pieces, i)
    ensures r == FanoutRun(stores, v, m, pieces, table)
  {
    r := FanoutState(stores, {}, false);
    for i := 0 to |table|
      invariant Same(r, FanoutRun(stores, v, m, pieces, table[..i]))
    {
      FanoutPrefix(stores, v, m, pieces, table, i);
      var piece := CutPiece(data, count, table[i], pieces);
      r := SendPiece(r, v, m, table[i], piece);
    }
    assert table[..|table|] == table;
  }

  method CutPiece(data: seq<byte>, count: nat, p: Pointer, ghost pieces: seq<seq<byte>>) returns (piece: seq<byte>)
    requires count == |pieces| && GoodPointer(p, pieces) && IsSlice(data, pieces, p.fragment - 1)
    ensures piece == pieces[p.fragment - 1]
  {
    var base := |data| / count;
    var offset := base * (p.fragment - 1);
    piece := data[offset..offset + p.size];
  }

  lemma FanoutPrefix(stores: Stores, v: IndexView, m: Meta, pieces: seq<seq<byte>>, table: seq<Pointer>, i: nat)
    requires i < |table| && GoodTable(table, pieces)
    ensures GoodPointer(table[i], pieces)
    ensures Same(FanoutRun(stores, v, m, pieces, table[..i + 1]),
                 SendNext(FanoutRun(stores, v, m, pieces, table[..i]), v, m, table[i], pieces[table[i].fragment - 1]))
  {
    assert table[..i + 1][..i] == table[..i];
  }

  /** One entry: the index's own piece is put away; another one is announced to its node, which opens a container, and
      then transferred. */
  method SendPiece(st: FanoutState, v: IndexView, m: Meta, p: Pointer, piece: seq<byte>) returns (r: FanoutState)
    ensures Same(r, SendNext(st, v, m, p, piece))
  {
    r := st;
    var n := Target(v, p);
    if st.blocked || n !in st.stores {
      return;
    }
    if n == v.me {
      r := st.(stores := st.stores[n := StoreFragment(st.stores[n], m, p.fragment, piece)]);
    } else if n in st.hung {
      r := st.(blocked := true);
    } else {
      var container := Announced(st.stores[n], m);
      var received := Transfer(piece);
      if received.None? {
        r := st.(stores := st.stores[n := container], hung := st.hung + {n});
      } else {
        AnnouncedFirst(st.stores[n], m, p.fragment, received.value);
        r := st.(stores := st.stores[n := StoreFragment(container, m, p.fragment, received.value)]);
      }
    }
  }

  /** Opening the container early makes no difference to what is stored in the end. */
  lemma AnnouncedFirst(store: FileStore, m: Meta, id: nat, data: seq<byte>)
    ensures StoreFragment(Announced(store, m), m, id, data) == StoreFragment(store, m, id, data)
  {
    if Find(store, m.fileId).None? {
      FindLast(store, Fresh(m));
    }
  }

  // ---------------------------------------------------------------- what fan-out leaves behind

  /** The fragments the table sends to node n, in table order. */
  function Held(table: seq<Pointer>, pieces: seq<seq<byte>>, n: nat): (held: seq<Slot>)
    requires GoodTable(table, pieces)
    ensures forall k :: 0 <= k < |held| ==> held[k].id != 0
  {
    if table == [] then []
    else
      var last := table[|table| - 1];
      Held(table[..|table| - 1], pieces, n)
      + if last.node == n then [Slot(last.fragment, pieces[last.fragment - 1])] else []
  }

  /** A container that has been sent these fragments; from the third one on, slot 1 is overwritten. */
  function WithSlots(m: Meta, held: seq<Slot>): Container {
    Container(m.name, m.fileId, m.size, m.total,
              if |held| >= 1 then held[0] else FREE,
              if |held| >= 2 then held[|held| - 1] else FREE)
  }

  /** What node n has gained after the table has been fanned out. */
  function Gained(m: Meta, table: seq<Pointer>, pieces: seq<seq<byte>>, me: nat, n: nat): FileStore
    requires GoodTable(table, pieces)
  {
    GainOf(m, Held(table, pieces, n), n == me)
  }

  /** The index has a container for every file, the others only if they hold a fragment. */
  function GainOf(m: Meta, held: seq<Slot>, mine: bool): FileStore {
    if held == [] && !mine then [] else [WithSlots(m, held)]
  }

  lemma FindLast(store: FileStore, c: Container)
    requires NotIn(store, c.fileId)
    ensures Find(store + [c], c.fileId) == Some(|store|)
  {
    assert (store + [c])[..|store|] == store;
  }

  /** Storing one more fragment of a file turns what a node gained so far into what it gains with it. */
  lemma StoreExtends(before: FileStore, m: Meta, held: seq<Slot>, mine: bool, id: nat, data: seq<byte>)
    requires NotIn(before, m.fileId) && id != 0
    requires forall k :: 0 <= k < |held| ==> held[k].id != 0
    ensures StoreFragment(before + GainOf(m, held, mine), m, id, data) ==
            before + GainOf(m, held + [Slot(id, data)], mine)
  {
    if held != [] || mine {
      FindLast(before, WithSlots(m, held));
    } else {
      assert before + [] == before;
    }
  }

  predicate FreshEverywhere(stores: Stores, fileId: nat) {
    forall n :: n in stores ==> NotIn(stores[n], fileId)
  }

  /** A remote piece can be transferred. */
  predicate Transportable(p: Pointer, me: nat) {
    p.node != me ==> p.size % 4096 != 0
  }

  /** One step in terms of the entry: it fails exactly when the piece cannot be transferred. */
  lemma FanoutStepResult(s: Stores, v: IndexView, m: Meta, pieces: seq<seq<byte>>, p: Pointer)
    requires GoodPointer(p, pieces) && v.me in s && CanReach(s, v, p.node)
    ensures FanoutStep(s, v, m, pieces, p) ==
            if Transportable(p, v.me) then Some(Deposit(s, m, pieces, p)) else None
  {
  }

  /** Node n has gained what the table assigns to it. */
  predicate NodeSpread(before: Stores, after: Stores, m: Meta, table: seq<Pointer>, pieces: seq<seq<byte>>, me: nat,
                       n: nat)
    requires GoodTable(table, pieces)
  {
    n in before && n in after && after[n] == before[n] + Gained(m, table, pieces, me, n)
  }

  predicate Spread(before: Stores, after: Stores, m: Meta, table: seq<Pointer>, pieces: seq<seq<byte>>, me: nat)
    requires GoodTable(table, pieces)
  {
    && after.Keys == before.Keys
    && forall n :: n in before ==> NodeSpread(before, after, m, table, pieces, me, n)
  }

  predicate AllTransportable(table: seq<Pointer>, me: nat) {
    forall k :: 0 <= k < |table| ==> Transportable(table[k], me)
  }

  lemma TransportableLast(front: seq<Pointer>, p: Pointer, me: nat)
    ensures AllTransportable(front + [p], me) <==> AllTransportable(front, me) && Transportable(p, me)
  {
    var table := front + [p];
    assert table[|front|] == p && forall k :: 0 <= k < |front| ==> table[k] == front[k];
  }

  function Started(stores: Stores, me: nat, m: Meta): Stores
    requires me in stores
  {
    stores[me := stores[me] + [Fresh(m)]]
  }

  /** The result r of a fan-out is as the table says. */
  predicate AsPlanned(r: Option<Stores>, stores: Stores, m: Meta, pieces: seq<seq<byte>>, table: seq<Pointer>, me: nat)
    requires GoodTable(table, pieces)
  {
    && (r.Some? <==> AllTransportable(table, me))
    && (r.Some? ==> Spread(stores, r.value, m, table, pieces, me))
  }

  /** Fan-out completes exactly when no fragment sent to a peer has a size divisible by the bucket
      size; then every node has gained exactly the fragments the table assigns to it, in table order,
      and nothing it held before has changed. */
  lemma {:induction false} FanoutLayout(stores: Stores, v: IndexView, m: Meta, pieces: seq<seq<byte>>,
                                        table: seq<Pointer>)
    requires GoodTable(table, pieces)
    requires v.me in stores && AllReachable(stores, v, table) && FreshEverywhere(stores, m.fileId)
    ensures AllReachable(Started(stores, v.me, m), v, table)
    ensures AsPlanned(Fanout(Started(stores, v.me, m), v, m, pieces, table), stores, m, pieces, table, v.me)
  {
    var started := Started(stores, v.me, m);
    ReachableStarted(stores, v, m, table);
    if table == [] {
      SpreadNothing(stores, v.me, m, pieces);
      assert Spread(stores, Fanout(started, v, m, pieces, table).value, m, table, pieces, v.me);
    } else {
      var front, last := table[..|table| - 1], table[|table| - 1];
      FanoutLayout(stores, v, m, pieces, front);
      assert table == front + [last];
      assert CanReach(stores, v, last.node);
      TransportableLast(front, last, v.me);
      var before := Fanout(started, v, m, pieces, front);
      if before.Some? {
        FanoutLayoutStep(stores, before.value, v, m, pieces, front, last);
      }
    }
  }

  lemma FanoutLayoutStep(stores: Stores, s: Stores, v: IndexView, m: Meta, pieces: seq<seq<byte>>,
                         front: seq<Pointer>, p: Pointer)
    requires GoodTable(front, pieces) && GoodPointer(p, pieces) && GoodTable(front + [p], pieces)
    requires FreshEverywhere(stores, m.fileId)
    requires v.me in stores && CanReach(stores, v, p.node) && s.Keys == stores.Keys
    requires AsPlanned(Some(s), stores, m, pieces, front, v.me)
    ensures AsPlanned(FanoutStep(s, v, m, pieces, p), stores, m, pieces, front + [p], v.me)
  {
    TransportableLast(front, p, v.me);
    FanoutStepResult(s, v, m, pieces, p);
    if Transportable(p, v.me) {
      SpreadStep(stores, s, m, pieces, front, p, v.me);
    }
  }

  lemma ReachableStarted(stores: Stores, v: IndexView, m: Meta, table: seq<Pointer>)
    requires v.me in stores && AllReachable(stores, v, table)
    ensures AllReachable(Started(stores, v.me, m), v, table)
  {
    forall k | 0 <= k < |table|
      ensures CanReach(Started(stores, v.me, m), v, table[k].node)
    {
      assert CanReach(stores, v, table[k].node);
    }
  }

  lemma SpreadNothing(stores: Stores, me: nat, m: Meta, pieces: seq<seq<byte>>)
    requires me in stores
    ensures Spread(stores, Started(stores, me, m), m, [], pieces, me)
  {
    assert forall n :: n in stores && n != me ==> stores[n] == stores[n] + [];
  }

  /** Node p.node stores the piece of entry p. */
  function Deposit(s: Stores, m: Meta, pieces: seq<seq<byte>>, p: Pointer): Stores
    requires p.node in s && GoodPointer(p, pieces)
  {
    s[p.node := StoreFragment(s[p.node], m, p.fragment, pieces[p.fragment - 1])]
  }

  lemma SpreadStep(stores: Stores, s: Stores, m: Meta, pieces: seq<seq<byte>>, front: seq<Pointer>, p: Pointer, me: nat)
    requires GoodTable(front, pieces) && GoodPointer(p, pieces) && GoodTable(front + [p], pieces)
    requires FreshEverywhere(stores, m.fileId)
    requires Spread(stores, s, m, front, pieces, me)
    requires p.node in stores
    ensures Spread(stores, Deposit(s, m, pieces, p), m, front + [p], pieces, me)
  {
    forall n | n in stores
      ensures NodeSpread(stores, Deposit(s, m, pieces, p), m, front + [p], pieces, me, n)
    {
      assert NodeSpread(stores, s, m, front, pieces, me, n);
      assert NotIn(stores[n], m.fileId);
      NodeGains(stores[n], m, pieces, front, p, me, n);
    }
  }

  lemma HeldLast(front: seq<Pointer>, pieces: seq<seq<byte>>, p: Pointer, n: nat)
    requires GoodTable(front, pieces) && GoodPointer(p, pieces) && GoodTable(front + [p], pieces)
    ensures Held(front + [p], pieces, n) ==
            if p.node == n then Held(front, pieces, n) + [Slot(p.fragment, pieces[p.fragment - 1])]
            else Held(front, pieces, n)
  {
    assert (front + [p])[..|front + [p]| - 1] == front;
    assert Held(front, pieces, n) + [] == Held(front, pieces, n);
  }

  /** The last entry of the table changes what its node gains, and no other. */
  lemma NodeGains(before: FileStore, m: Meta, pieces: seq<seq<byte>>, front: seq<Pointer>, p: Pointer, me: nat, n: nat)
    requires GoodTable(front, pieces) && GoodPointer(p, pieces) && GoodTable(front + [p], pieces)
    requires NotIn(before, m.fileId)
    ensures p.node != n ==> Gained(m, front + [p], pieces, me, n) == Gained(m, front, pieces, me, n)
    ensures p.node == n ==>
              StoreFragment(before + Gained(m, front, pieces, me, n), m, p.fragment, pieces[p.fragment - 1])
              == before + Gained(m, front + [p], pieces, me, n)
  {
    HeldLast(front, pieces, p, n);
    StoreExtends(before, m, Held(front, pieces, n), n == me, p.fragment, pieces[p.fragment - 1]);
  }
}
