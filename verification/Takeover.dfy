/** The index rebuilt by node N - 1 after the death of index N serves every file as before. */
module Takeover {
  import opened Types
  import opened Split
  import opened Placement
  import opened Selection
  import opened Storage
  import opened Layout
  import opened Cluster
  import opened Rebuild
  import opened PutPhase
  import opened Losses
  import opened Failover

  /** These are all the survivors of the death of node `ring`, each once. */
  ghost predicate AllSurvivors(ring: nat, order: seq<nat>) {
    Distinct(order) && forall n: nat :: n in order <==> 1 <= n < ring
  }

  // ---------------------------------------------------------------- tables

  /** The original table with the dead index's entries blank. */
  function SurvivorTable(ring: nat, table: seq<Pointer>): (t: seq<Pointer>)
    ensures |t| == |table|
  {
    seq(|table|, p requires 0 <= p < |table| => if table[p].node == ring then BLANK else table[p])
  }

  lemma SplitRebuilt(ring: nat, files: seq<File>, order: seq<nat>, id: nat)
    requires ring >= 4 && AllSurvivors(ring, order) && 1 <= id <= |files| && |Pieces(ring, files[id - 1])| == ring
    ensures FoldTable(Abouts(ring, files, order, id)) == Some(SurvivorTable(ring, RingTable(ring, files[id - 1])))
  {
    SurvivorsOnRing(ring, order);
    SplitAbouts(ring, files, order, id);
    SurvivorsFold(ring, Pieces(ring, files[id - 1]), MetaFor(files[id - 1], id, ring), order,
                  Abouts(ring, files, order, id));
  }

  lemma SurvivorsOnRing(ring: nat, order: seq<nat>)
    requires ring >= 2 && AllSurvivors(ring, order)
    ensures order != [] && forall k :: 0 <= k < |order| ==> 1 <= order[k] < ring
  {
    assert 1 in order;
    assert forall k :: 0 <= k < |order| ==> order[k] in order;
  }

  ghost predicate AllOwnReports(ring: nat, pieces: seq<seq<byte>>, m: Meta, order: seq<nat>,
                                abouts: seq<Option<Report>>)
  {
    |abouts| == |order| && forall k :: 0 <= k < |order| ==> IsOwnReport(ring, pieces, m, order[k], abouts[k])
  }

  lemma SplitIsOwn(ring: nat, files: seq<File>, n: nat, id: nat)
    requires ring >= 3 && 1 <= id <= |files| && |Pieces(ring, files[id - 1])| == ring && 1 <= n < ring
    ensures IsOwnReport(ring, Pieces(ring, files[id - 1]), MetaFor(files[id - 1], id, ring), n,
                        ReportAbout(ring, files, n, id))
  {
    SplitReport(ring, files, id, n);
  }

  lemma SplitAbouts(ring: nat, files: seq<File>, order: seq<nat>, id: nat)
    requires ring >= 3 && 1 <= id <= |files| && |Pieces(ring, files[id - 1])| == ring
    requires forall k :: 0 <= k < |order| ==> 1 <= order[k] < ring
    ensures AllOwnReports(ring, Pieces(ring, files[id - 1]), MetaFor(files[id - 1], id, ring), order,
                          Abouts(ring, files, order, id))
  {
    var pieces, m := Pieces(ring, files[id - 1]), MetaFor(files[id - 1], id, ring);
    var abouts := Abouts(ring, files, order, id);
    forall k | 0 <= k < |order|
      ensures IsOwnReport(ring, pieces, m, order[k], abouts[k])
    {
      SplitIsOwn(ring, files, order[k], id);
      assert abouts[k] == ReportAbout(ring, files, order[k], id);
    }
  }

  /** What node n reports about a file split over the full ring. */
  predicate IsOwnReport(ring: nat, pieces: seq<seq<byte>>, m: Meta, n: nat, about: Option<Report>) {
    && |pieces| == ring >= 3 && 1 <= n <= ring
    && about == Some(OwnReport(FirstNodes(ring), pieces, m, n - 1))
  }

  lemma SurvivorsFold(ring: nat, pieces: seq<seq<byte>>, m: Meta, order: seq<nat>, abouts: seq<Option<Report>>)
    requires ring >= 4 && AllSurvivors(ring, order) && |pieces| == ring == m.total
    requires order != [] && AllOwnReports(ring, pieces, m, order, abouts)
    ensures FoldTable(abouts) == Some(SurvivorTable(ring, FileTable(FirstNodes(ring), pieces)))
  {
    var js := Shift(order);
    ShiftedFold(ring, pieces, m, order, abouts);
    ProcessedBySurvivors(ring, pieces, order, js);
  }

  lemma ShiftedOwn(ring: nat, pieces: seq<seq<byte>>, m: Meta, order: seq<nat>, abouts: seq<Option<Report>>)
    requires ring >= 3 && |pieces| == ring && AllOwnReports(ring, pieces, m, order, abouts)
    ensures AllOwn(FirstNodes(ring), pieces, m, Shift(order), abouts)
    ensures forall k :: 0 <= k < |order| ==> 1 <= order[k] <= ring
  {
    forall k | 0 <= k < |order|
      ensures 1 <= order[k] <= ring && OwnAbout(FirstNodes(ring), pieces, m, Shift(order)[k], abouts[k])
    {
      assert IsOwnReport(ring, pieces, m, order[k], abouts[k]);
    }
  }

  lemma ShiftedFold(ring: nat, pieces: seq<seq<byte>>, m: Meta, order: seq<nat>, abouts: seq<Option<Report>>)
    requires ring >= 4 && |pieces| == ring == m.total
    requires order != [] && AllOwnReports(ring, pieces, m, order, abouts)
    ensures forall k :: 0 <= k < |order| ==> 1 <= order[k] <= ring
    ensures FoldTable(abouts) == Some(Processed(FirstNodes(ring), pieces, Shift(order)))
  {
    ShiftedOwn(ring, pieces, m, order, abouts);
    SplitFold(FirstNodes(ring), pieces, m, Shift(order), abouts);
  }

  /** Node ids to positions. */
  function Shift(order: seq<nat>): (js: seq<nat>)
    ensures |js| == |order| && forall k :: 0 <= k < |order| && order[k] >= 1 ==> js[k] == order[k] - 1
  {
    seq(|order|, k requires 0 <= k < |order| => if order[k] == 0 then 0 else order[k] - 1)
  }

  lemma ProcessedBySurvivors(ring: nat, pieces: seq<seq<byte>>, order: seq<nat>, js: seq<nat>)
    requires ring >= 4 && AllSurvivors(ring, order) && |pieces| == ring && |js| == |order|
    requires forall k :: 0 <= k < |js| ==> 1 <= order[k] && js[k] == order[k] - 1 < ring
    ensures Processed(FirstNodes(ring), pieces, js) == SurvivorTable(ring, FileTable(FirstNodes(ring), pieces))
  {
    var live := FirstNodes(ring);
    var original := FileTable(live, pieces);
    forall p: nat | p < 2 * ring
      ensures Processed(live, pieces, js)[p] == SurvivorTable(ring, original)[p]
    {
      RebuildRefinesPlacement(live, pieces, js, p);
      FileTableAt(live, pieces, p);
      SurvivorReported(ring, order, js, original[p].node);
    }
  }

  lemma SurvivorReported(ring: nat, order: seq<nat>, js: seq<nat>, n: nat)
    requires AllSurvivors(ring, order) && |js| == |order| && 1 <= n <= ring
    requires forall k :: 0 <= k < |js| ==> 1 <= order[k] && js[k] == order[k] - 1 < ring
    ensures HasReported(FirstNodes(ring), js, n) <==> n != ring
  {
    var live := FirstNodes(ring);
    if n != ring {
      assert n in order;
      var k :| 0 <= k < |order| && order[k] == n;
      assert live[js[k]] == n;
    } else {
      assert forall k :: 0 <= k < |order| ==> order[k] in order;
    }
  }

  lemma WholeRebuilt(ring: nat, files: seq<File>, order: seq<nat>, id: nat)
    requires ring >= 4 && AllSurvivors(ring, order) && 1 <= id <= |files| && |Pieces(ring, files[id - 1])| == 1
    ensures FoldTable(Abouts(ring, files, order, id)) == Some(SurvivorTable(ring, RingTable(ring, files[id - 1])))
  {
    var f, m := files[id - 1], MetaFor(files[id - 1], id, ring);
    var abouts := Abouts(ring, files, order, id);
    assert forall k :: 0 <= k < |order| ==> order[k] in order;
    forall k | 0 <= k < |order|
      ensures order[k] >= 1 && abouts[k] == WholeAbout(m, |f.data|, order[k])
    {
      WholeReport(ring, files, id, order[k]);
    }
    WholeFold(m, |f.data|, order, abouts);
    WholeRingTable(ring, f);
  }

  lemma WholeRingTable(ring: nat, f: File)
    requires ring >= 4 && |Pieces(ring, f)| == 1
    ensures RingTable(ring, f) == [Pointer(1, |f.data|, 1), Pointer(1, |f.data|, 2)]
    ensures SurvivorTable(ring, RingTable(ring, f)) == RingTable(ring, f)
  {
    PieceIsFragment(ring, f, 0);
    WholeFragment(f.data);
    FileTableAt(FirstNodes(ring), Pieces(ring, f), 0);
    FileTableAt(FirstNodes(ring), Pieces(ring, f), 1);
  }

  /** The rebuilt table of every file, split or not, is the original one without the dead index. */
  lemma TableRebuilt(ring: nat, files: seq<File>, order: seq<nat>, id: nat)
    requires ring >= 4 && AllSurvivors(ring, order) && 1 <= id <= |files|
    ensures FoldTable(Abouts(ring, files, order, id)) == Some(SurvivorTable(ring, RingTable(ring, files[id - 1])))
  {
    if |Pieces(ring, files[id - 1])| == 1 {
      WholeRebuilt(ring, files, order, id);
    } else {
      SplitRebuilt(ring, files, order, id);
    }
  }

  // ---------------------------------------------------------------- bounds

  /** Taking this report after those stays inside the file's table. */
  predicate SafeNext(abouts: seq<Option<Report>>, r: Report) {
    var table := OrBlank(FoldTable(abouts), r.m.total);
    |table| == 2 * r.m.total && WritesInBounds(table, r.r0, r.r1)
  }

  lemma SplitInBounds(ring: nat, pieces: seq<seq<byte>>, m: Meta, order: seq<nat>, abouts: seq<Option<Report>>, n: nat)
    requires ring >= 4 && |pieces| == ring == m.total && 1 <= n <= ring
    requires AllOwnReports(ring, pieces, m, order, abouts)
    ensures SafeNext(abouts, OwnReport(FirstNodes(ring), pieces, m, n - 1))
  {
    ShiftedOwn(ring, pieces, m, order, abouts);
    SplitFold(FirstNodes(ring), pieces, m, Shift(order), abouts);
    ProcessedLast(FirstNodes(ring), pieces, Shift(order), n - 1);
  }

  lemma WholeInBounds(m: Meta, size: nat, order: seq<nat>, abouts: seq<Option<Report>>, r: Report)
    requires m.total == 1 && Distinct(order) && |abouts| == |order| && r.m == m
    requires forall k :: 0 <= k < |order| ==> order[k] >= 1 && abouts[k] == WholeAbout(m, size, order[k])
    ensures SafeNext(abouts, r)
  {
    WholeFold(m, size, order, abouts);
  }

  /** No report that the new index takes, in whatever order they come, writes outside a table. */
  lemma ReportsInBounds(ring: nat, files: seq<File>, front: seq<nat>, n: nat, id: nat)
    requires ring >= 4 && Distinct(front) && 1 <= id <= |files| && 1 <= n < ring
    requires forall k :: 0 <= k < |front| ==> 1 <= front[k] < ring
    requires ReportAbout(ring, files, n, id).Some?
    ensures SafeNext(Abouts(ring, files, front, id), ReportAbout(ring, files, n, id).value)
  {
    var f, m := files[id - 1], MetaFor(files[id - 1], id, ring);
    if |Pieces(ring, f)| == 1 {
      forall k | 0 <= k < |front|
        ensures Abouts(ring, files, front, id)[k] == WholeAbout(m, |f.data|, front[k])
      {
        WholeReport(ring, files, id, front[k]);
      }
      ReportAboutMeta(ring, files, n, id);
      WholeInBounds(m, |f.data|, front, Abouts(ring, files, front, id), ReportAbout(ring, files, n, id).value);
    } else {
      SplitAbouts(ring, files, front, id);
      SplitReport(ring, files, id, n);
      SplitInBounds(ring, Pieces(ring, f), m, front, Abouts(ring, files, front, id), n);
    }
  }

  // ---------------------------------------------------------------- choices

  /** The new index's view. */
  ghost predicate TakeoverView(v: IndexView, ring: nat) {
    && ring >= 4 && v.me == ring - 1 == v.netSize == |v.ports| && v.deathCount == 1
    && forall n: nat :: 1 <= n < ring - 1 ==> v.ports[n - 1] == AddressOf(n)
  }

  lemma SurvivorDials(v: IndexView, ring: nat, n: nat)
    requires TakeoverView(v, ring) && 1 <= n < ring
    ensures InTable(v, n) && IsValidNode(v, n) && Dials(v, n)
  {
    var address := AddressOf(n);
    assert n < ring - 1 ==> v.ports[n - 1] == AddressOf(n);
  }

  lemma SurvivorTableInBounds(v: IndexView, ring: nat, f: File)
    requires TakeoverView(v, ring)
    ensures TableInBounds(v, SurvivorTable(ring, RingTable(ring, f)))
  {
    var table := RingTable(ring, f);
    forall p: nat | p < |table|
      ensures InTable(v, SurvivorTable(ring, table)[p].node)
    {
      RingTableNode(ring, f, p);
    }
  }

  /** Exactly which copies a new index asks for: the first one of every fragment, but fragment N, whose first holder is
      dead, from node 1. */
  lemma TakeoverChoice(v: IndexView, ring: nat, f: File, i: nat)
    requires TakeoverView(v, ring) && i < |Pieces(ring, f)|
    ensures TableInBounds(v, SurvivorTable(ring, RingTable(ring, f)))
    ensures Select(v, SurvivorTable(ring, RingTable(ring, f)))[i] ==
            Pointer(i + 1, |Pieces(ring, f)[i]|, if i + 1 < ring then i + 1 else 1)
  {
    var table := SurvivorTable(ring, RingTable(ring, f));
    SurvivorTableInBounds(v, ring, f);
    RowOfTable(FirstNodes(ring), Sizes(Pieces(ring, f)), i);
    assert Select(v, table)[i] == Choice(v, table, i);
    if i + 1 < ring {
      SurvivorDials(v, ring, i + 1);
    }
  }

  /** Every fragment is asked from a survivor that has it. */
  lemma ChoicesAfterTakeover(stores: Stores, v: IndexView, ring: nat, f: File, i: nat)
    requires TakeoverView(v, ring) && stores.Keys == RingNodes(ring - 1) && i < |Pieces(ring, f)|
    requires TableInBounds(v, SurvivorTable(ring, RingTable(ring, f)))
    ensures GoodChoice(stores, v, ring, Select(v, SurvivorTable(ring, RingTable(ring, f))), i)
  {
    TakeoverChoice(v, ring, f, i);
    SurvivorDials(v, ring, if i + 1 < ring then i + 1 else 1);
  }
}
