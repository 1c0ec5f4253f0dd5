/** Index rebuild across all files: the new index first reports its own files to itself, then takes the
    reports of the other survivors in whatever order they come. */
module Failover {
  import opened Types
  import opened Split
  import opened Placement
  import opened Storage
  import opened Layout
  import opened Cluster
  import opened Rebuild
  import opened PutPhase

  /** What the new index has put together so far: the tables, and its own store. */
  datatype Rebuilt = Rebuilt(index: seq<IndexEntry>, store: FileStore)

  /** Replacing the table found under this id. */
  function SetTable(index: seq<IndexEntry>, fileId: nat, table: seq<Pointer>): seq<IndexEntry> {
    if index == [] then []
    else
      var front, last := index[..|index| - 1], index[|index| - 1];
      if TableOf(front, fileId).Some? then SetTable(front, fileId, table) + [last]
      else if last.fileId == fileId then front + [IndexEntry(fileId, table)]
      else index
  }

  /** The table after a report; a report that would write outside it is left out. In no history is there
      one, see WorldSessions.EverySessionFits. */
  function Updated(table: seq<Pointer>, r: Report): seq<Pointer> {
    if WritesInBounds(table, r.r0, r.r1) then ApplyReport(table, r.r0, r.r1) else table
  }

  function OrBlank(t: Option<seq<Pointer>>, total: nat): seq<Pointer> {
    match t
    case Some(table) => table
    case None => Blanks(2 * total)
  }

  /** The index half of xprocedure_save_file_to_index. */
  function SavedIndex(index: seq<IndexEntry>, r: Report): seq<IndexEntry> {
    var id, table := r.m.fileId, TableOf(index, r.m.fileId);
    SetTable(if table.None? then index + [IndexEntry(id, Blanks(2 * r.m.total))] else index, id,
             Updated(OrBlank(table, r.m.total), r))
  }

  /** The file-table half: a container for a file the new index has not got. */
  function SavedStore(store: FileStore, m: Meta): FileStore {
    if Lookup(store, m.fileId).None? then store + [Fresh(m)] else store
  }

  /** xprocedure_save_file_to_index. */
  function SaveFile(st: Rebuilt, r: Report): Rebuilt {
    Rebuilt(SavedIndex(st.index, r), SavedStore(st.store, r.m))
  }

  function SaveAll(st: Rebuilt, reports: seq<Report>): Rebuilt {
    if reports == [] then st else SaveFile(SaveAll(st, reports[..|reports| - 1]), reports[|reports| - 1])
  }

  /** The report's writes stay inside the file's table, new or old. */
  predicate ReportFits(index: seq<IndexEntry>, r: Report) {
    var table := OrBlank(TableOf(index, r.m.fileId), r.m.total);
    |table| == 2 * r.m.total && WritesInBounds(table, r.r0, r.r1)
  }

  /** The report can be saved without leaving its table or the file table. */
  predicate Fitting(st: Rebuilt, r: Report) {
    ReportFits(st.index, r) && (Find(st.store, r.m.fileId).None? ==> |st.store| < MAX_FILES)
  }

  /** So can these reports, one after the other. */
  predicate AllFitting(st: Rebuilt, reports: seq<Report>) {
    forall k :: 0 <= k < |reports| ==> Fitting(SaveAll(st, reports[..k]), reports[k])
  }

  /** Everything a node reports: its containers, in order. */
  function Reports(store: FileStore, n: nat): (reports: seq<Report>)
    ensures |reports| == |store|
  {
    if store == [] then [] else Reports(store[..|store| - 1], n) + [ReportOf(store[|store| - 1], n)]
  }

  function StoreIn(stores: Stores, n: nat): FileStore {
    if n in stores then stores[n] else []
  }

  /** The reports of these nodes, one node after the other. */
  function SaveNodes(st: Rebuilt, stores: Stores, order: seq<nat>): Rebuilt {
    if order == [] then st
    else
      var n := order[|order| - 1];
      SaveAll(SaveNodes(st, stores, order[..|order| - 1]), Reports(StoreIn(stores, n), n))
  }

  // ---------------------------------------------------------------- one report

  lemma {:induction false} SetTableFinds(index: seq<IndexEntry>, fileId: nat, table: seq<Pointer>, id: nat)
    ensures TableOf(SetTable(index, fileId, table), id) ==
            if id == fileId && TableOf(index, fileId).Some? then Some(table) else TableOf(index, id)
  {
    if index != [] {
      var front, last := index[..|index| - 1], index[|index| - 1];
      FrontLast(index);
      SetTableFinds(front, fileId, table, id);
      TableOfLast(front, last, id);
      TableOfLast(front, last, fileId);
      TableOfLast(SetTable(front, fileId, table), last, id);
      TableOfLast(front, IndexEntry(fileId, table), id);
    }
  }

  /** A report changes the table of its own file and of no other. */
  lemma SaveFileTable(st: Rebuilt, r: Report, id: nat)
    ensures TableOf(SaveFile(st, r).index, id) ==
            if id == r.m.fileId then Some(Updated(OrBlank(TableOf(st.index, id), r.m.total), r))
            else TableOf(st.index, id)
  {
    var blank := IndexEntry(r.m.fileId, Blanks(2 * r.m.total));
    var index := if TableOf(st.index, r.m.fileId).None? then st.index + [blank] else st.index;
    TableOfLast(st.index, blank, id);
    TableOfLast(st.index, blank, r.m.fileId);
    SetTableFinds(index, r.m.fileId, Updated(OrBlank(TableOf(st.index, r.m.fileId), r.m.total), r), id);
  }

  // ---------------------------------------------------------------- one node

  lemma SaveAllLast(st: Rebuilt, reports: seq<Report>, r: Report)
    ensures SaveAll(st, reports + [r]) == SaveFile(SaveAll(st, reports), r)
  {
    assert (reports + [r])[..|reports + [r]| - 1] == reports;
  }

  lemma ReportsLast(store: FileStore, c: Container, n: nat)
    ensures Reports(store + [c], n) == Reports(store, n) + [ReportOf(c, n)]
  {
    assert (store + [c])[..|store + [c]| - 1] == store;
  }

  /** The state after node n's report on a file, if it has one. */
  function SavedGain(st: Rebuilt, gain: FileStore, n: nat): Rebuilt {
    if gain == [] then st else SaveFile(st, ReportOf(gain[0], n))
  }

  /** Saving a node's whole store is saving the store of the files before the last, then its gain of the last. */
  lemma SaveStoreLast(st: Rebuilt, ring: nat, front: seq<File>, last: File, n: nat)
    requires ring >= 1
    ensures var gain := Gain(ring, last, |front| + 1, n);
            var before := SaveAll(st, Reports(StoreOf(ring, front, n), n));
            Same(SaveAll(st, Reports(StoreOf(ring, front + [last], n), n)), SavedGain(before, gain, n))
  {
    var gain, store := Gain(ring, last, |front| + 1, n), StoreOf(ring, front, n);
    StoreOfLast(ring, front, last, n);
    GainIds(ring, last, |front| + 1, n);
    if gain == [] {
      assert store + gain == store;
    } else {
      assert store + gain == store + [gain[0]];
      ReportsLast(store, gain[0], n);
      SaveAllLast(st, Reports(store, n), ReportOf(gain[0], n));
    }
  }

  /** What node n has to report about file `id`, if anything. */
  function ReportAbout(ring: nat, files: seq<File>, n: nat, id: nat): Option<Report>
    requires ring >= 1
  {
    if 1 <= id <= |files| && Gain(ring, files[id - 1], id, n) != []
    then Some(ReportOf(Gain(ring, files[id - 1], id, n)[0], n)) else None
  }

  lemma ReportAboutMeta(ring: nat, files: seq<File>, n: nat, id: nat)
    requires ring >= 1 && ReportAbout(ring, files, n, id).Some?
    ensures ReportAbout(ring, files, n, id).value.m == MetaFor(files[id - 1], id, ring)
  {
    GainIds(ring, files[id - 1], id, n);
  }

  /** The table after one report, if there is one. */
  function Reporting(table: Option<seq<Pointer>>, r: Option<Report>): Option<seq<Pointer>> {
    match r
    case None => table
    case Some(r') => Some(Updated(OrBlank(table, r'.m.total), r'))
  }

  /** What node n has to report about one file. */
  function ReportOn(gain: FileStore, n: nat): Option<Report> {
    if gain == [] then None else Some(ReportOf(gain[0], n))
  }

  lemma SavedGainTable(st: Rebuilt, ring: nat, f: File, fileId: nat, n: nat, id: nat)
    requires ring >= 1
    ensures TableOf(SavedGain(st, Gain(ring, f, fileId, n), n).index, id) ==
            Reporting(TableOf(st.index, id), if id == fileId then ReportOn(Gain(ring, f, fileId, n), n) else None)
  {
    GainIds(ring, f, fileId, n);
    if Gain(ring, f, fileId, n) != [] {
      SaveFileTable(st, ReportOf(Gain(ring, f, fileId, n)[0], n), id);
    }
  }

  lemma ReportAboutLast(ring: nat, front: seq<File>, last: File, n: nat, id: nat)
    requires ring >= 1
    ensures ReportAbout(ring, front + [last], n, id) ==
            if id == |front| + 1 then ReportOn(Gain(ring, last, |front| + 1, n), n) else ReportAbout(ring, front, n, id)
  {
  }

  lemma SaveStoreStep(st: Rebuilt, ring: nat, front: seq<File>, last: File, n: nat, id: nat)
    requires ring >= 1
    requires TableOf(SaveAll(st, Reports(StoreOf(ring, front, n), n)).index, id) ==
             Reporting(TableOf(st.index, id), ReportAbout(ring, front, n, id))
    ensures TableOf(SaveAll(st, Reports(StoreOf(ring, front + [last], n), n)).index, id) ==
            Reporting(TableOf(st.index, id), ReportAbout(ring, front + [last], n, id))
  {
    SaveStoreLast(st, ring, front, last, n);
    SavedGainTable(SaveAll(st, Reports(StoreOf(ring, front, n), n)), ring, last, |front| + 1, n, id);
    ReportAboutLast(ring, front, last, n, id);
  }

  /** All of a node's reports together change the table of a file by the one report about it. */
  lemma {:induction false} SaveStoreTable(st: Rebuilt, ring: nat, files: seq<File>, n: nat, id: nat)
    requires ring >= 1
    ensures TableOf(SaveAll(st, Reports(StoreOf(ring, files, n), n)).index, id) ==
            Reporting(TableOf(st.index, id), ReportAbout(ring, files, n, id))
  {
    if files != [] {
      var front, last := files[..|files| - 1], files[|files| - 1];
      FrontLast(files);
      SaveStoreTable(st, ring, front, n, id);
      SaveStoreStep(st, ring, front, last, n, id);
    }
  }

  // ---------------------------------------------------------------- all survivors

  /** A table from a list of reports, some of which may be missing. */
  function FoldTable(abouts: seq<Option<Report>>): Option<seq<Pointer>> {
    if abouts == [] then None
    else
      var before := FoldTable(abouts[..|abouts| - 1]);
      Reporting(before, abouts[|abouts| - 1])
  }

  lemma FoldTableLast(front: seq<Option<Report>>, last: Option<Report>)
    ensures FoldTable(front + [last]) == Reporting(FoldTable(front), last)
  {
    assert (front + [last])[..|front + [last]| - 1] == front;
  }

  /** What these nodes have to report about file `id`, in order. */
  function Abouts(ring: nat, files: seq<File>, order: seq<nat>, id: nat): (abouts: seq<Option<Report>>)
    requires ring >= 1
    ensures |abouts| == |order|
    ensures forall k :: 0 <= k < |order| ==> abouts[k] == ReportAbout(ring, files, order[k], id)
  {
    seq(|order|, k requires 0 <= k < |order| => ReportAbout(ring, files, order[k], id))
  }

  lemma AboutsLast(ring: nat, files: seq<File>, front: seq<nat>, n: nat, id: nat)
    requires ring >= 1
    ensures Abouts(ring, files, front + [n], id) == Abouts(ring, files, front, id) + [ReportAbout(ring, files, n, id)]
  {
  }

  /** The stores of these nodes are as they were when everybody was alive. */
  ghost predicate Untouched(stores: Stores, ring: nat, files: seq<File>, order: seq<nat>)
    requires ring >= 1
  {
    forall k :: 0 <= k < |order| ==> order[k] in stores && stores[order[k]] == StoreOf(ring, files, order[k])
  }

  lemma SaveNodesLast(st: Rebuilt, stores: Stores, front: seq<nat>, n: nat)
    ensures Same(SaveNodes(st, stores, front + [n]),
                 SaveAll(SaveNodes(st, stores, front), Reports(StoreIn(stores, n), n)))
  {
    assert (front + [n])[..|front + [n]| - 1] == front;
  }

  lemma UntouchedLast(stores: Stores, ring: nat, files: seq<File>, front: seq<nat>, n: nat)
    requires ring >= 1 && Untouched(stores, ring, files, front + [n])
    ensures Untouched(stores, ring, files, front) && StoreIn(stores, n) == StoreOf(ring, files, n)
  {
    var order := front + [n];
    assert order[|front|] == n && forall k :: 0 <= k < |front| ==> order[k] == front[k];
  }

  lemma SaveNodesStep(st: Rebuilt, ring: nat, files: seq<File>, front: seq<nat>, n: nat, id: nat)
    requires ring >= 1 && TableOf(st.index, id) == FoldTable(Abouts(ring, files, front, id))
    ensures TableOf(SaveAll(st, Reports(StoreOf(ring, files, n), n)).index, id) ==
            FoldTable(Abouts(ring, files, front + [n], id))
  {
    SaveStoreTable(st, ring, files, n, id);
    AboutsLast(ring, files, front, n, id);
    FoldTableLast(Abouts(ring, files, front, id), ReportAbout(ring, files, n, id));
  }

  /** However many files there are, the table of each is made from the reports about it alone. */
  lemma {:induction false} SaveNodesTable(stores: Stores, store: FileStore, ring: nat, files: seq<File>,
                                          order: seq<nat>, id: nat)
    requires ring >= 1 && Untouched(stores, ring, files, order)
    ensures TableOf(SaveNodes(Rebuilt([], store), stores, order).index, id) == FoldTable(Abouts(ring, files, order, id))
  {
    if order != [] {
      var front, n := order[..|order| - 1], order[|order| - 1];
      FrontLast(order);
      UntouchedLast(stores, ring, files, front, n);
      SaveNodesTable(stores, store, ring, files, front, id);
      SaveNodesLast(Rebuilt([], store), stores, front, n);
      SaveNodesStep(SaveNodes(Rebuilt([], store), stores, front), ring, files, front, n, id);
    }
  }

  // ---------------------------------------------------------------- split files

  /** The report of the j-th holder, by table positions. */
  function OwnReport(live: seq<nat>, pieces: seq<seq<byte>>, m: Meta, j: nat): Report
    requires |pieces| == |live| >= 3 && j < |live|
  {
    var table := FileTable(live, pieces);
    Report(m, table[FirstPosition(|live|, j)], table[SecondPosition(|live|, j)])
  }

  lemma OneMoreReport(live: seq<nat>, pieces: seq<seq<byte>>, m: Meta, js: seq<nat>, j: nat)
    requires |pieces| == |live| >= 3 && Distinct(live) && j < |live|
    requires forall k :: 0 <= k < |js| ==> js[k] < |live|
    ensures Updated(Processed(live, pieces, js), OwnReport(live, pieces, m, j)) == Processed(live, pieces, js + [j])
  {
    ProcessedLast(live, pieces, js, j);
  }

  lemma SplitFoldStep(live: seq<nat>, pieces: seq<seq<byte>>, m: Meta, js: seq<nat>, j: nat,
                      abouts: seq<Option<Report>>)
    requires |pieces| == |live| >= 3 && Distinct(live) && m.total == |live| && j < |live|
    requires forall k :: 0 <= k < |js| ==> js[k] < |live|
    requires OrBlank(FoldTable(abouts), |live|) == Processed(live, pieces, js)
    ensures FoldTable(abouts + [Some(OwnReport(live, pieces, m, j))]) == Some(Processed(live, pieces, js + [j]))
  {
    FoldTableLast(abouts, Some(OwnReport(live, pieces, m, j)));
    OneMoreReport(live, pieces, m, js, j);
  }

  /** This is what the j-th holder has to say. */
  predicate OwnAbout(live: seq<nat>, pieces: seq<seq<byte>>, m: Meta, j: nat, about: Option<Report>)
    requires |pieces| == |live| >= 3
  {
    j < |live| && about == Some(OwnReport(live, pieces, m, j))
  }

  ghost predicate AllOwn(live: seq<nat>, pieces: seq<seq<byte>>, m: Meta, js: seq<nat>, abouts: seq<Option<Report>>) {
    && |pieces| == |live| >= 3 && |abouts| == |js|
    && forall k :: 0 <= k < |js| ==> OwnAbout(live, pieces, m, js[k], abouts[k])
  }

  lemma AllOwnLast(live: seq<nat>, pieces: seq<seq<byte>>, m: Meta, js: seq<nat>, abouts: seq<Option<Report>>, j: nat,
                   about: Option<Report>)
    requires AllOwn(live, pieces, m, js + [j], abouts + [about]) && |js| == |abouts|
    ensures AllOwn(live, pieces, m, js, abouts) && OwnAbout(live, pieces, m, j, about)
    ensures forall k :: 0 <= k < |js| ==> js[k] < |live|
  {
    var js', abouts' := js + [j], abouts + [about];
    assert js'[|js|] == j && abouts'[|js|] == about;
    assert forall k :: 0 <= k < |js| ==> js'[k] == js[k] && abouts'[k] == abouts[k];
  }

  /** For a split file the reports of any holders, in any order, give what RebuildRefinesPlacement says. */
  lemma {:induction false} SplitFold(live: seq<nat>, pieces: seq<seq<byte>>, m: Meta, js: seq<nat>,
                                     abouts: seq<Option<Report>>)
    requires AllOwn(live, pieces, m, js, abouts) && Distinct(live) && m.total == |live|
    ensures forall k :: 0 <= k < |js| ==> js[k] < |live|
    ensures OrBlank(FoldTable(abouts), |live|) == Processed(live, pieces, js)
    ensures js != [] ==> FoldTable(abouts).Some?
    decreases |js|
  {
    if js != [] {
      var front, j := js[..|js| - 1], js[|js| - 1];
      var rest, last := abouts[..|js| - 1], abouts[|js| - 1];
      FrontLast(js);
      FrontLast(abouts);
      AllOwnLast(live, pieces, m, front, rest, j, last);
      SplitFold(live, pieces, m, front, rest);
      SplitFoldStep(live, pieces, m, front, j, rest);
    }
  }

  lemma SplitGain(ring: nat, f: File, id: nat, n: nat)
    requires ring >= 3 && 1 <= n <= ring && |Pieces(ring, f)| == ring
    ensures Gain(ring, f, id, n) == [WithSlots(MetaFor(f, id, ring), Held(RingTable(ring, f), Pieces(ring, f), n))]
  {
    HeldOnRing(ring, f, n);
  }

  lemma SplitReport(ring: nat, files: seq<File>, id: nat, n: nat)
    requires ring >= 3 && 1 <= id <= |files| && 1 <= n <= ring && |Pieces(ring, files[id - 1])| == ring
    ensures ReportAbout(ring, files, n, id) ==
            Some(OwnReport(FirstNodes(ring), Pieces(ring, files[id - 1]), MetaFor(files[id - 1], id, ring), n - 1))
  {
    var f := files[id - 1];
    var c := WithSlots(MetaFor(f, id, ring), Held(RingTable(ring, f), Pieces(ring, f), n));
    SplitGain(ring, f, id, n);
    assert ReportAbout(ring, files, n, id) == Some(ReportOf(c, n));
    OwnReportOf(FirstNodes(ring), Pieces(ring, f), MetaFor(f, id, ring), n - 1, n);
  }

  lemma OwnReportOf(live: seq<nat>, pieces: seq<seq<byte>>, m: Meta, j: nat, n: nat)
    requires |pieces| == |live| >= 3 && Distinct(live) && j < |live| && live[j] == n
    ensures ReportOf(WithSlots(m, Held(FileTable(live, pieces), pieces, n)), n) == OwnReport(live, pieces, m, j)
  {
    ReportIsOwnEntries(live, pieces, m, j);
  }

  // ---------------------------------------------------------------- unsplit files

  lemma WholeReport(ring: nat, files: seq<File>, id: nat, n: nat)
    requires ring >= 3 && 1 <= id <= |files| && 1 <= n < ring && |Pieces(ring, files[id - 1])| == 1
    ensures ReportAbout(ring, files, n, id) ==
            WholeAbout(MetaFor(files[id - 1], id, ring), |files[id - 1].data|, n)
  {
    var f := files[id - 1];
    GainOnRing(ring, f, id, n);
    PieceIsFragment(ring, f, 0);
    WholeFragment(f.data);
  }

  lemma WholeFragment(data: seq<byte>)
    ensures Fragment(data, 1, 1) == data
  {
    RangesTile(|data|, 1, 1);
  }

  /** What node n has to say about an unsplit file. */
  function WholeAbout(m: Meta, size: nat, n: nat): Option<Report> {
    if n <= 2 then Some(Report(m, Pointer(1, size, n), BLANK)) else None
  }

  /** The table of an unsplit file when nodes 1 and 2 have reported or not. */
  function WholeTable(size: nat, one: bool, two: bool): Option<seq<Pointer>> {
    if one && two then Some([Pointer(1, size, 1), Pointer(1, size, 2)])
    else if one then Some([Pointer(1, size, 1), BLANK])
    else if two then Some([Pointer(1, size, 2), BLANK])
    else None
  }

  lemma WholeStep(m: Meta, size: nat, one: bool, two: bool, n: nat)
    requires (n == 1 && !one) || (n == 2 && !two)
    ensures Updated(OrBlank(WholeTable(size, one, two), 1), Report(m, Pointer(1, size, n), BLANK)) ==
            WholeTable(size, one || n == 1, two || n == 2).value
  {
    assert Blanks(2) == [BLANK, BLANK];
  }

  lemma WholeFoldStep(m: Meta, size: nat, one: bool, two: bool, n: nat, abouts: seq<Option<Report>>)
    requires m.total == 1 && n >= 1 && (n == 1 ==> !one) && (n == 2 ==> !two)
    requires FoldTable(abouts) == WholeTable(size, one, two)
    ensures FoldTable(abouts + [WholeAbout(m, size, n)]) == WholeTable(size, one || n == 1, two || n == 2)
  {
    FoldTableLast(abouts, WholeAbout(m, size, n));
    if n <= 2 {
      WholeStep(m, size, one, two, n);
    }
  }

  /** For an unsplit file the two holders' reports, in either order, give the table sorted by node. */
  lemma {:induction false} WholeFold(m: Meta, size: nat, order: seq<nat>, abouts: seq<Option<Report>>)
    requires m.total == 1 && Distinct(order) && |abouts| == |order|
    requires forall k :: 0 <= k < |order| ==> order[k] >= 1 && abouts[k] == WholeAbout(m, size, order[k])
    ensures FoldTable(abouts) == WholeTable(size, 1 in order, 2 in order)
    decreases |order|
  {
    if order != [] {
      var front, n := order[..|order| - 1], order[|order| - 1];
      var rest, last := abouts[..|order| - 1], abouts[|order| - 1];
      FrontLast(order);
      FrontLast(abouts);
      assert n !in front;
      WholeFold(m, size, front, rest);
      WholeFoldStep(m, size, 1 in front, 2 in front, n, rest);
    }
  }
}
