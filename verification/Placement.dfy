/** SERVER_INDEX_HANDLE_NEW_FILE: choosing two nodes for every fragment of a new file. */
module Placement {
  import opened Types
  import opened Split

  /** The part of an index node's `Server` that placement and replica selection read.
      `ports` is the peer table; `ports[i]` is the address of node i + 1, 0 once it is erased. */
  datatype IndexView = IndexView(me: nat, netSize: nat, deathCount: nat, knownPeers: nat, ports: seq<nat>)

  /** Reading the peer table for node n stays inside the table. */
  predicate InTable(v: IndexView, n: nat) {
    n == 0 || n == v.me || n <= |v.ports|
  }

  predicate IsValidNode(v: IndexView, n: nat)
    requires InTable(v, n)
  {
    n != 0 && (n == v.me || v.ports[n - 1] != 0)
  }

  /** Original size of the ring, as the index reckons it; ring positions are taken modulo this. */
  function RingSize(v: IndexView): nat {
    v.netSize + v.deathCount
  }

  /** What the placement loops need in order to stay inside the peer table. */
  predicate Sized(v: IndexView) {
    0 < RingSize(v) <= |v.ports| && v.knownPeers <= |v.ports|
  }

  // ---------------------------------------------------------------- the loops, as functions

  /** The skip loop: the first peer-table position from p on that is not erased, or the first one
      past the known peers. */
  function Skip(v: IndexView, p: nat): (q: nat)
    requires Sized(v)
    ensures p <= q && (p <= v.knownPeers ==> q <= v.knownPeers)
    ensures q < v.knownPeers ==> v.ports[q] != 0
    ensures forall u: nat :: p <= u < q ==> u < v.knownPeers && v.ports[u] == 0
    decreases v.knownPeers - p
  {
    if p < v.knownPeers && v.ports[p] == 0 then Skip(v, p + 1) else p
  }

  /** Start position for fragment i. The skip offset carries over from one fragment to the next. */
  function StartPosition(v: IndexView, i: nat): nat
    requires Sized(v)
    decreases i, 1
  {
    Skip(v, From(v, i))
  }

  /** Where the skip loop begins for fragment i. */
  function From(v: IndexView, i: nat): nat
    requires Sized(v)
    decreases i, 0
  {
    if i == 0 then 0 else StartPosition(v, i - 1) + 1
  }

  /** The t-th node tried from a start position. */
  function Candidate(v: IndexView, start: nat, t: nat): (n: nat)
    requires Sized(v)
    ensures 1 <= n <= |v.ports|
  {
    RingMod(start + t, RingSize(v)) + 1
  }

  /** The replica loop: valid nodes at distance t or more are added to those found, up to two in all. */
  function Scan(v: IndexView, start: nat, t: nat, found: seq<nat>): (nodes: seq<nat>)
    requires Sized(v)
    decreases v.knownPeers + 1 - t
  {
    if |found| >= 2 || t >= v.knownPeers + 1 then found
    else if IsValidNode(v, Candidate(v, start, t)) then Scan(v, start, t + 1, found + [Candidate(v, start, t)])
    else Scan(v, start, t + 1, found)
  }

  /** The replicas the loop finds for fragment i. */
  function Replicas(v: IndexView, i: nat): seq<nat>
    requires Sized(v)
  {
    Scan(v, StartPosition(v, i), 0, [])
  }

  /** Table entry at position p when fragment p / 2 was scanned to `nodes`. */
  function EntryFrom(sizes: seq<nat>, p: nat, nodes: seq<nat>): Pointer
    requires p < 2 * |sizes|
  {
    if p % 2 < |nodes| then Pointer(p / 2 + 1, sizes[p / 2], nodes[p % 2]) else BLANK
  }

  function Entry(v: IndexView, sizes: seq<nat>, p: nat): Pointer
    requires Sized(v) && p < 2 * |sizes|
  {
    EntryFrom(sizes, p, Replicas(v, p / 2))
  }

  /** The whole table the index writes for a file cut into pieces of the given sizes. */
  function Placed(v: IndexView, sizes: seq<nat>): (table: seq<Pointer>)
    requires Sized(v)
    ensures |table| == 2 * |sizes|
  {
    seq(2 * |sizes|, p requires 0 <= p < 2 * |sizes| => Entry(v, sizes, p))
  }

  lemma PlacedAt(v: IndexView, sizes: seq<nat>, p: nat)
    requires Sized(v) && p < 2 * |sizes|
    ensures Placed(v, sizes)[p] == Entry(v, sizes, p)
  {
  }

  /** Row i of a table: fragment i + 1 with the replicas found by the scan. */
  predicate RowScanned(table: seq<Pointer>, sizes: seq<nat>, i: nat, nodes: seq<nat>)
    requires |table| == 2 * |sizes| && i < |sizes|
  {
    && table[2 * i] == (if |nodes| >= 1 then Pointer(i + 1, sizes[i], nodes[0]) else BLANK)
    && table[2 * i + 1] == (if |nodes| >= 2 then Pointer(i + 1, sizes[i], nodes[1]) else BLANK)
  }

  lemma PlacedRow(v: IndexView, sizes: seq<nat>, i: nat)
    requires Sized(v) && i < |sizes|
    ensures RowScanned(Placed(v, sizes), sizes, i, Replicas(v, i))
  {
    PlacedAt(v, sizes, 2 * i);
    PlacedAt(v, sizes, 2 * i + 1);
    EvenOdd(i);
  }

  lemma EvenOdd(i: nat)
    ensures 2 * i / 2 == i && 2 * i % 2 == 0 && (2 * i + 1) / 2 == i && (2 * i + 1) % 2 == 1
  {
  }

  // ---------------------------------------------------------------- the loops, as code

  /** The nested loops that fill a freshly calloc'ed table. The skip offset never decreases. */
  method PlaceFragments(v: IndexView, size: nat, count: nat, table: array<Pointer>)
    requires Sized(v) && count > 0
    requires table.Length == 2 * count
    requires forall p :: 0 <= p < table.Length ==> table[p] == BLANK
    modifies table
    ensures table[..] == Placed(v, FragmentSizes(size, count))
  {
    var sizes := FragmentSizes(size, count);
    forall i: nat | i < count
      ensures RowScanned(Placed(v, sizes), sizes, i, Replicas(v, i))
    {
      PlacedRow(v, sizes, i);
    }
    FillTable(v, sizes, table, Placed(v, sizes));
  }

  method FillTable(v: IndexView, sizes: seq<nat>, table: array<Pointer>, ghost target: seq<Pointer>)
    requires Sized(v) && table.Length == |target| == 2 * |sizes|
    requires forall i: nat :: i < |sizes| ==> RowScanned(target, sizes, i, Replicas(v, i))
    requires forall p :: 0 <= p < table.Length ==> table[p] == BLANK
    modifies table
    ensures table[..] == target
  {
    var internalOffset := 0;
    for i := 0 to |sizes|
      invariant i + internalOffset == From(v, i)
      invariant forall p :: 0 <= p < 2 * i ==> table[p] == target[p]
      invariant forall p :: 2 * i <= p < table.Length ==> table[p] == BLANK
    {
      assert RowScanned(target, sizes, i, Replicas(v, i));
      internalOffset := PlaceOne(v, sizes, i, internalOffset, table, target);
    }
  }

  method PlaceOne(v: IndexView, sizes: seq<nat>, i: nat, initialOffset: nat, table: array<Pointer>,
                  ghost target: seq<Pointer>)
    returns (internalOffset: nat)
    requires Sized(v) && i < |sizes| && table.Length == |target| == 2 * |sizes|
    requires RowScanned(target, sizes, i, Replicas(v, i))
    requires i + initialOffset == From(v, i)
    requires table[2 * i] == table[2 * i + 1] == BLANK
    modifies table
    ensures i + 1 + internalOffset == From(v, i + 1) && initialOffset <= internalOffset
    ensures table[2 * i] == target[2 * i] && table[2 * i + 1] == target[2 * i + 1]
    ensures forall p :: 0 <= p < table.Length && p != 2 * i && p != 2 * i + 1 ==> table[p] == old(table[p])
  {
    internalOffset := SkipDead(v, i, initialOffset);
    PlaceReplicas(v, sizes, i, i + internalOffset, table, target);
  }

  method SkipDead(v: IndexView, i: nat, initialOffset: nat) returns (internalOffset: nat)
    requires Sized(v)
    ensures i + internalOffset == Skip(v, i + initialOffset)
    ensures initialOffset <= internalOffset
  {
    internalOffset := initialOffset;
    while i + internalOffset < v.knownPeers && v.ports[i + internalOffset] == 0
      invariant initialOffset <= internalOffset
      invariant Skip(v, i + internalOffset) == Skip(v, i + initialOffset)
      decreases v.knownPeers - (i + internalOffset)
    {
      internalOffset := internalOffset + 1;
    }
  }

  method PlaceReplicas(v: IndexView, sizes: seq<nat>, i: nat, start: nat, table: array<Pointer>,
                       ghost target: seq<Pointer>)
    requires Sized(v) && i < |sizes| && table.Length == |target| == 2 * |sizes|
    requires RowScanned(target, sizes, i, Scan(v, start, 0, []))
    requires table[2 * i] == table[2 * i + 1] == BLANK
    modifies table
    ensures table[2 * i] == target[2 * i] && table[2 * i + 1] == target[2 * i + 1]
    ensures forall p :: 0 <= p < table.Length && p != 2 * i && p != 2 * i + 1 ==> table[p] == old(table[p])
  {
    var j, tries := 0, 0;
    ghost var found: seq<nat> := [];
    while j < 2 && tries < v.knownPeers + 1
      invariant 0 <= j <= 2 && |found| == j
      invariant Scan(v, start, tries, found) == Scan(v, start, 0, [])
      invariant table[2 * i] == if j >= 1 then Pointer(i + 1, sizes[i], found[0]) else BLANK
      invariant table[2 * i + 1] == if j >= 2 then Pointer(i + 1, sizes[i], found[1]) else BLANK
      invariant forall p :: 0 <= p < table.Length && p != 2 * i && p != 2 * i + 1 ==> table[p] == old(table[p])
      decreases v.knownPeers + 1 - tries
    {
      RingModIsMod(start + tries, RingSize(v));
      var node := (start + tries) % RingSize(v) + 1;
      if IsValidNode(v, node) {
        table[2 * i + j] := Pointer(i + 1, sizes[i], node);
        found := found + [node];
        j := j + 1;
      }
      tries := tries + 1;
    }
  }

  // ---------------------------------------------------------------- what the loops mean

  /** The valid nodes among 1..k, in ascending order. */
  function LiveUpTo(v: IndexView, k: nat): (live: seq<nat>)
    requires k <= |v.ports|
    ensures forall x :: x in live <==> 1 <= x <= k && IsValidNode(v, x)
    ensures forall a, b :: 0 <= a < b < |live| ==> live[a] < live[b]
  {
    if k == 0 then []
    else
      var below := LiveUpTo(v, k - 1);
      assert forall a :: 0 <= a < |below| ==> below[a] in below;
      if IsValidNode(v, k) then below + [k] else below
  }

  function Live(v: IndexView): seq<nat> {
    LiveUpTo(v, |v.ports|)
  }

  /** The peer table of an index that is the last node of the ring, has heard from every peer, and
      whose two counters add up to the original ring size and agree with the table. */
  predicate Consistent(v: IndexView) {
    && v.me == RingSize(v) == |v.ports| == v.knownPeers + 1
    && v.netSize == |Live(v)|
  }

  /** Two neighbours in the live list have no valid node between them. */
  lemma LiveNeighbours(v: IndexView, k: nat, x: nat)
    requires k + 1 < |Live(v)| && Live(v)[k] < x < Live(v)[k + 1]
    ensures !(InTable(v, x) && IsValidNode(v, x))
  {
    var live := Live(v);
    assert live[k + 1] in live;
    assert x in live ==> exists j :: 0 <= j < |live| && live[j] == x;
  }

  lemma LiveEnds(v: IndexView, x: nat)
    requires Consistent(v) && 1 <= x <= |v.ports| && IsValidNode(v, x)
    ensures |Live(v)| >= 1 && Live(v)[0] <= x <= v.me == Live(v)[|Live(v)| - 1]
  {
    var live := Live(v);
    assert x in live;
    assert v.me in live;
    var j :| 0 <= j < |live| && live[j] == v.me;
    assert live[|live| - 1] in live;
    assert j == |live| - 1;
  }

  predicate ErasedAt(v: IndexView, u: nat) {
    u < v.knownPeers <= |v.ports| && v.ports[u] == 0
  }

  lemma {:induction false} SkipStopsAt(v: IndexView, p: nat, q: nat)
    requires Sized(v) && p <= q
    requires forall u: nat :: p <= u < q ==> ErasedAt(v, u)
    requires q < v.knownPeers ==> v.ports[q] != 0
    ensures Skip(v, p) == q
    decreases q - p
  {
    if p < q {
      assert ErasedAt(v, p);
      SkipStopsAt(v, p + 1, q);
    }
  }

  /** Fragment i starts at the i-th live node: the skip loop jumps exactly over the dead ones. */
  lemma {:induction false} StartIsLive(v: IndexView, i: nat)
    requires Sized(v) && Consistent(v) && i < v.netSize
    ensures StartPosition(v, i) + 1 == Live(v)[i]
  {
    var live := Live(v);
    if i > 0 {
      StartIsLive(v, i - 1);
    }
    var from := if i == 0 then 0 else live[i - 1];
    assert live[i] in live;
    LiveEnds(v, live[i]);
    var q := live[i] - 1;
    forall u: nat | from <= u < q
      ensures ErasedAt(v, u)
    {
      DeadBefore(v, i, u);
    }
    SkipStopsAt(v, from, q);
  }

  lemma DeadBefore(v: IndexView, i: nat, u: nat)
    requires Sized(v) && Consistent(v) && i < v.netSize
    requires (if i == 0 then 0 else Live(v)[i - 1]) <= u < Live(v)[i] - 1 <= v.knownPeers
    ensures v.ports[u] == 0
  {
    if i > 0 {
      LiveNeighbours(v, i - 1, u + 1);
    } else {
      var x := u + 1;
      if IsValidNode(v, x) {
        LiveEnds(v, x);
      }
    }
  }

  /** If the candidates from distance t up to t' are all invalid and the one at t' is valid, it is the next hit. */
  lemma {:induction false} ScanHits(v: IndexView, start: nat, t: nat, t': nat, found: seq<nat>)
    requires Sized(v) && |found| < 2 && t <= t' < v.knownPeers + 1
    requires forall u :: t <= u < t' ==> !IsValidNode(v, Candidate(v, start, u))
    requires IsValidNode(v, Candidate(v, start, t'))
    ensures Scan(v, start, t, found) == Scan(v, start, t' + 1, found + [Candidate(v, start, t')])
    decreases t' - t
  {
    if t < t' {
      ScanHits(v, start, t + 1, t', found);
    }
  }

  /** Ring arithmetic: past the end of the ring, candidates start over at node 1. */
  lemma CandidateWraps(v: IndexView, start: nat, t: nat)
    requires Sized(v) && start + t < 2 * RingSize(v)
    ensures Candidate(v, start, t) ==
            if start + t < RingSize(v) then start + t + 1 else start + t + 1 - RingSize(v)
  {
    if start + t >= RingSize(v) {
      assert RingMod(start + t - RingSize(v), RingSize(v)) == start + t - RingSize(v);
    }
  }

  /** The first hit of the scan is the i-th live node itself. */
  lemma FirstHit(v: IndexView, i: nat)
    requires Sized(v) && Consistent(v) && i < v.netSize
    ensures Replicas(v, i) == Scan(v, StartPosition(v, i), 1, [Live(v)[i]])
  {
    StartIsLive(v, i);
    assert Live(v)[i] in Live(v);
    LiveEnds(v, Live(v)[i]);
    CandidateWraps(v, StartPosition(v, i), 0);
    ScanHits(v, StartPosition(v, i), 0, 0, []);
    assert [] + [Live(v)[i]] == [Live(v)[i]];
  }

  /** The second hit is the cyclic live successor. */
  lemma SecondHit(v: IndexView, i: nat, start: nat, next: nat)
    requires Sized(v) && Consistent(v) && i < v.netSize && v.netSize >= 2
    requires start + 1 == Live(v)[i] && next == Live(v)[NextLive(i, v.netSize)]
    ensures Scan(v, start, 1, [Live(v)[i]]) == [Live(v)[i], next] && next != Live(v)[i]
  {
    var live := Live(v);
    assert live[i] in live && next in live;
    LiveEnds(v, live[i]);
    LiveEnds(v, next);
    var t' := if i + 1 < v.netSize then next - live[i] else next;
    CandidateWraps(v, start, t');
    forall u | 1 <= u < t'
      ensures !IsValidNode(v, Candidate(v, start, u))
    {
      NoneBetween(v, i, start, u);
    }
    ScanHits(v, start, 1, t', [live[i]]);
  }

  /** The i-th fragment goes to the i-th live node and to its cyclic live successor. */
  lemma ScanIsLivePair(v: IndexView, i: nat)
    requires Sized(v) && Consistent(v) && i < v.netSize && v.netSize >= 2
    ensures Replicas(v, i) == [Live(v)[i], Live(v)[NextLive(i, v.netSize)]]
    ensures Live(v)[i] != Live(v)[NextLive(i, v.netSize)]
  {
    StartIsLive(v, i);
    FirstHit(v, i);
    SecondHit(v, i, StartPosition(v, i), Live(v)[NextLive(i, v.netSize)]);
  }

  lemma NoneBetween(v: IndexView, i: nat, start: nat, u: nat)
    requires Sized(v) && Consistent(v) && i < v.netSize && v.netSize >= 2
    requires start + 1 == Live(v)[i]
    requires 1 <= u && if i + 1 < v.netSize then u < Live(v)[i + 1] - Live(v)[i] else u < Live(v)[0]
    ensures !IsValidNode(v, Candidate(v, start, u))
  {
    var live := Live(v);
    assert live[i] in live && live[0] in live;
    LiveEnds(v, live[i]);
    if i + 1 < v.netSize {
      assert live[i + 1] in live;
      CandidateWraps(v, start, u);
      LiveNeighbours(v, i, start + u + 1);
    } else {
      CandidateWraps(v, start, u);
      if IsValidNode(v, u) {
        LiveEnds(v, u);
      }
    }
  }

  /** The position after i, cyclically, in a list of n. */
  function NextLive(i: nat, n: nat): nat
  {
    if i + 1 < n then i + 1 else 0
  }

  /** What the table means over any list of live nodes. */
  function LiveEntry(live: seq<nat>, sizes: seq<nat>, p: nat): Pointer
    requires 1 <= |sizes| <= |live| && p < 2 * |sizes|
  {
    Pointer(p / 2 + 1, sizes[p / 2], live[if p % 2 == 0 then p / 2 else NextLive(p / 2, |live|)])
  }

  function LiveTable(live: seq<nat>, sizes: seq<nat>): (table: seq<Pointer>)
    requires 1 <= |sizes| <= |live|
    ensures |table| == 2 * |sizes|
  {
    seq(2 * |sizes|, p requires 0 <= p < 2 * |sizes| => LiveEntry(live, sizes, p))
  }

  /** Placement over any live set: whichever nodes have died, as long as the index's counters are
      consistent and two nodes are alive, fragment i + 1 is put on the i-th live node and on its
      cyclic successor among the live nodes, and these two differ. */
  lemma PlacementOverAnyLiveSet(v: IndexView, sizes: seq<nat>)
    requires Consistent(v) && v.netSize >= 2 && 1 <= |sizes| <= v.netSize
    ensures Sized(v)
    ensures Placed(v, sizes) == LiveTable(Live(v), sizes)
    ensures forall i: nat {:trigger sizes[i]} :: i < |sizes| ==>
              Placed(v, sizes)[2 * i].node != Placed(v, sizes)[2 * i + 1].node
  {
    forall p: nat | p < 2 * |sizes|
      ensures Placed(v, sizes)[p] == LiveEntry(Live(v), sizes, p)
    {
      EntryIsLive(v, sizes, p);
    }
    forall i: nat | i < |sizes|
      ensures Placed(v, sizes)[2 * i].node != Placed(v, sizes)[2 * i + 1].node
    {
      PlacedApart(v, sizes, i);
    }
  }

  lemma PlacedApart(v: IndexView, sizes: seq<nat>, i: nat)
    requires Sized(v) && Consistent(v) && v.netSize >= 2 && |sizes| <= v.netSize && i < |sizes|
    ensures Placed(v, sizes)[2 * i].node != Placed(v, sizes)[2 * i + 1].node
  {
    PlacedRow(v, sizes, i);
    ScanIsLivePair(v, i);
  }

  lemma EntryIsLive(v: IndexView, sizes: seq<nat>, p: nat)
    requires Sized(v) && Consistent(v) && v.netSize >= 2 && |sizes| <= v.netSize && p < 2 * |sizes|
    ensures Placed(v, sizes)[p] == Entry(v, sizes, p) == LiveEntry(Live(v), sizes, p)
  {
    ScanIsLivePair(v, p / 2);
  }

  // ---------------------------------------------------------------- the index as widow

  /** The index's own view after its predecessor, node N - 1, has died: the index detected the death
      itself, so its netSize was decremented twice and its counters add up to N - 1 only. */
  predicate Widowed(v: IndexView) {
    && v.me == |v.ports| == v.knownPeers + 1 == v.netSize + 2
    && v.deathCount == 1 && v.netSize >= 1
    && v.ports[v.netSize] == 0
    && forall i :: 0 <= i < v.netSize ==> v.ports[i] != 0
  }

  /** Nodes 1..k. */
  function FirstNodes(k: nat): (nodes: seq<nat>)
    ensures |nodes| == k && forall i :: 0 <= i < k ==> nodes[i] == i + 1
  {
    seq(k, i => i + 1)
  }

  lemma {:induction false} StartWidowed(v: IndexView, i: nat)
    requires Widowed(v) && i < v.netSize
    ensures StartPosition(v, i) == i
  {
    if i > 0 {
      StartWidowed(v, i - 1);
    }
  }

  lemma ScanWidowed(v: IndexView, i: nat)
    requires Widowed(v) && i < v.netSize
    ensures Replicas(v, i) == [i + 1, NextLive(i, v.netSize) + 1]
  {
    StartWidowed(v, i);
    CandidateWraps(v, i, 0);
    CandidateWraps(v, i, 1);
    ScanHits(v, i, 0, 0, []);
    assert [] + [i + 1] == [i + 1];
    if i + 1 < v.netSize {
      ScanHits(v, i, 1, 1, [i + 1]);
    } else {
      CandidateWraps(v, i, 2);
      ScanHits(v, i, 1, 2, [i + 1]);
    }
  }

  /** A widowed index never places anything on itself: it spreads the file over nodes 1..N - 2 only.
      With N = 3 both replicas of the single fragment end up on node 1. */
  lemma PlacementWidowed(v: IndexView, sizes: seq<nat>)
    requires Widowed(v) && 1 <= |sizes| <= v.netSize
    ensures Sized(v) && !Consistent(v)
    ensures Placed(v, sizes) == LiveTable(FirstNodes(v.netSize), sizes)
    ensures forall p :: 0 <= p < 2 * |sizes| ==> Placed(v, sizes)[p].node != v.me
  {
    forall p: nat | p < 2 * |sizes|
      ensures Placed(v, sizes)[p] == LiveEntry(FirstNodes(v.netSize), sizes, p)
      ensures Placed(v, sizes)[p].node != v.me
    {
      PlacedAt(v, sizes, p);
      ScanWidowed(v, p / 2);
    }
  }
}
