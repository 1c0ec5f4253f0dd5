/** SERVER_INDEX_REQUEST_FRAGMENTS: choosing one replica of every fragment. */
module Selection {
  import opened Types
  import opened Placement

  /** The branch that falls back to the second replica. It is skipped when nobody has died, and also
      when the fragment count happens to equal twice the current net size. */
  predicate UsesFallback(v: IndexView, count: nat) {
    v.deathCount > 0 && count != 2 * v.netSize
  }

  /** Every table entry names a node whose peer-table slot exists. */
  predicate TableInBounds(v: IndexView, table: seq<Pointer>) {
    forall p :: 0 <= p < |table| ==> InTable(v, table[p].node)
  }

  function Choice(v: IndexView, table: seq<Pointer>, i: nat): Pointer
    requires 2 * i + 1 < |table| && TableInBounds(v, table)
  {
    if UsesFallback(v, |table| / 2) && !IsValidNode(v, table[2 * i].node) then table[2 * i + 1] else table[2 * i]
  }

  function Select(v: IndexView, table: seq<Pointer>): (chosen: seq<Pointer>)
    requires TableInBounds(v, table)
    ensures |chosen| == |table| / 2
  {
    seq(|table| / 2, i requires 0 <= i < |table| / 2 => Choice(v, table, i))
  }

  /** The loop that fills the array of chosen entries, one branch per case. */
  method SelectReplicas(v: IndexView, table: seq<Pointer>) returns (chosen: array<Pointer>)
    requires TableInBounds(v, table)
    ensures fresh(chosen) && chosen[..] == Select(v, table)
  {
    var count := |table| / 2;
    chosen := new Pointer[count];
    for i := 0 to count
      invariant forall k :: 0 <= k < i ==> chosen[k] == Choice(v, table, k)
    {
      if v.deathCount > 0 {
        if count == v.netSize * 2 {
          chosen[i] := table[2 * i];
        } else if IsValidNode(v, table[2 * i].node) {
          chosen[i] := table[2 * i];
        } else {
          chosen[i] := table[2 * i + 1];
        }
      } else {
        chosen[i] := table[2 * i];
      }
    }
  }

  /** The chosen entries name valid nodes and cover fragments 1..count, each exactly once. */
  predicate Serves(v: IndexView, chosen: seq<Pointer>) {
    forall i :: 0 <= i < |chosen| ==>
      InTable(v, chosen[i].node) && IsValidNode(v, chosen[i].node) && chosen[i].fragment == i + 1
  }

  predicate Alive(v: IndexView, n: nat) {
    InTable(v, n) && IsValidNode(v, n)
  }

  /** Fragment i + 1 can be served: its first holder is alive, or the index falls back to the second one
      and that one is alive. */
  predicate RowServed(v: IndexView, live: seq<nat>, count: nat, i: nat)
    requires i < |live|
  {
    Alive(v, live[i]) || (v.deathCount > 0 && count != 2 * v.netSize && Alive(v, live[NextLive(i, |live|)]))
  }

  lemma RowOfTable(live: seq<nat>, sizes: seq<nat>, i: nat)
    requires 1 <= |sizes| <= |live| && i < |sizes|
    ensures LiveTable(live, sizes)[2 * i] == Pointer(i + 1, sizes[i], live[i])
    ensures LiveTable(live, sizes)[2 * i + 1] == Pointer(i + 1, sizes[i], live[NextLive(i, |live|)])
  {
    EvenOdd(i);
  }

  lemma ChoiceServes(v: IndexView, live: seq<nat>, sizes: seq<nat>, i: nat)
    requires 1 <= |sizes| <= |live| && TableInBounds(v, LiveTable(live, sizes)) && i < |sizes|
    ensures var c := Select(v, LiveTable(live, sizes))[i];
            c.fragment == i + 1 && (Alive(v, c.node) <==> RowServed(v, live, |sizes|, i))
  {
    var table := LiveTable(live, sizes);
    RowOfTable(live, sizes, i);
    assert Select(v, table)[i] == Choice(v, table, i);
    assert InTable(v, table[2 * i].node) && InTable(v, table[2 * i + 1].node);
  }

  /** Selection serves a file placed over any list of nodes exactly when every fragment has its first
      holder alive, or the fallback branch runs and its second holder is alive. */
  lemma SelectionServes(v: IndexView, live: seq<nat>, sizes: seq<nat>)
    requires 1 <= |sizes| <= |live| && TableInBounds(v, LiveTable(live, sizes))
    ensures Serves(v, Select(v, LiveTable(live, sizes))) <==>
            forall i: nat :: i < |sizes| ==> RowServed(v, live, |sizes|, i)
  {
    var chosen := Select(v, LiveTable(live, sizes));
    forall i: nat | i < |sizes|
      ensures chosen[i].fragment == i + 1 && (Alive(v, chosen[i].node) <==> RowServed(v, live, |sizes|, i))
    {
      ChoiceServes(v, live, sizes, i);
    }
    assert Serves(v, chosen) <==> forall i :: 0 <= i < |chosen| ==> Alive(v, chosen[i].node);
  }

  lemma FullRingInBounds(v: IndexView, ring: nat, sizes: seq<nat>)
    requires 1 <= |sizes| <= ring && ring <= |v.ports|
    ensures TableInBounds(v, LiveTable(FirstNodes(ring), sizes))
  {
    var table := LiveTable(FirstNodes(ring), sizes);
    forall p: nat | p < |table|
      ensures InTable(v, table[p].node)
    {
      assert table[p] == LiveEntry(FirstNodes(ring), sizes, p);
    }
  }

  /** A file split over the full ring survives a set of deaths exactly when no two cyclically adjacent
      nodes are dead and the ring size is not twice the current net size: in that case the index
      asks primaries only, dead or not. */
  lemma LostOnlyByAdjacentDeaths(v: IndexView, ring: nat, sizes: seq<nat>)
    requires |sizes| == ring >= 1 && v.deathCount > 0
    requires v.me == ring == |v.ports|
    requires exists n :: 1 <= n <= ring && !Alive(v, n)
    ensures TableInBounds(v, LiveTable(FirstNodes(ring), sizes))
    ensures Serves(v, Select(v, LiveTable(FirstNodes(ring), sizes))) <==>
            && ring != 2 * v.netSize
            && forall n :: 1 <= n <= ring ==> Alive(v, n) || Alive(v, Succ(ring, n))
  {
    var live := FirstNodes(ring);
    FullRingInBounds(v, ring, sizes);
    SelectionServes(v, live, sizes);
    assert forall i: nat :: i < ring ==> live[i] == i + 1 && live[NextLive(i, ring)] == Succ(ring, i + 1);
    if forall i: nat :: i < ring ==> RowServed(v, live, ring, i) {
      forall n: nat | 1 <= n <= ring
        ensures Alive(v, n) || (ring != 2 * v.netSize && Alive(v, Succ(ring, n)))
      {
        assert RowServed(v, live, ring, n - 1);
      }
    }
    if ring != 2 * v.netSize && (forall n :: 1 <= n <= ring ==> Alive(v, n) || Alive(v, Succ(ring, n))) {
      forall i: nat | i < ring
        ensures RowServed(v, live, ring, i)
      {
        assert Alive(v, i + 1) || Alive(v, Succ(ring, i + 1));
      }
    }
  }

  /** What is chosen for fragment i + 1 of a file placed over the full ring: its first holder, unless that one is dead
      and the fallback branch runs. */
  lemma RingChoice(v: IndexView, ring: nat, sizes: seq<nat>, i: nat)
    requires 1 <= |sizes| <= ring && ring <= |v.ports| && i < |sizes|
    ensures TableInBounds(v, LiveTable(FirstNodes(ring), sizes))
    ensures Select(v, LiveTable(FirstNodes(ring), sizes))[i] ==
            Pointer(i + 1, sizes[i],
                    if v.deathCount > 0 && |sizes| != 2 * v.netSize && !Alive(v, i + 1) then Succ(ring, i + 1)
                    else i + 1)
  {
    var table := LiveTable(FirstNodes(ring), sizes);
    FullRingInBounds(v, ring, sizes);
    RowOfTable(FirstNodes(ring), sizes, i);
    assert Select(v, table)[i] == Choice(v, table, i);
    assert InTable(v, table[2 * i].node);
  }
}
