/** No report session of a takeover leaves a table: neither the table of a file nor the file table of the new index. */
module Sessions {
  import opened Types
  import opened Storage
  import opened Cluster
  import opened Rebuild
  import opened PutPhase
  import opened Failover
  import opened Takeover
  import opened Heritage
  import opened TakeoverGet

  /** What the new index has after the reports of these nodes. */
  ghost predicate RebuiltFrom(st: Rebuilt, ring: nat, files: seq<File>, order: seq<nat>) {
    && ring >= 4 && Distinct(order) && (forall k :: 0 <= k < |order| ==> 1 <= order[k] < ring)
    && (forall id: nat :: TableOf(st.index, id) == FoldTable(Abouts(ring, files, order, id)))
    && Same(st.store, InheritedFrom(ring, files, order))
  }

  // ---------------------------------------------------------------- one report

  lemma AboutPrefix(ring: nat, files: seq<File>, p: nat, n: nat)
    requires ring >= 1 && p < |files|
    ensures ReportAbout(ring, files[..p], n, p + 1).None?
    ensures ReportAbout(ring, files, n, p + 1) == ReportOn(Gain(ring, files[p], p + 1, n), n)
  {
  }

  /** The report on file p + 1 finds its table as it was when the session began. */
  lemma NextReportFits(st: Rebuilt, ring: nat, files: seq<File>, order: seq<nat>, p: nat, n: nat)
    requires RebuiltFrom(st, ring, files, order) && 1 <= n < ring && p < |files|
    requires Gain(ring, files[p], p + 1, n) != []
    ensures ReportFits(SaveAll(st, Reports(StoreOf(ring, files[..p], n), n)).index,
                       ReportOf(Gain(ring, files[p], p + 1, n)[0], n))
  {
    var r := ReportOf(Gain(ring, files[p], p + 1, n)[0], n);
    AboutPrefix(ring, files, p, n);
    SaveStoreTable(st, ring, files[..p], n, p + 1);
    ReportsInBounds(ring, files, order, n, p + 1);
    ReportAboutMeta(ring, files, n, p + 1);
  }

  // ---------------------------------------------------------------- room

  lemma ShiftIds(store: FileStore, id: nat, k: nat) returns (ids: seq<nat>)
    requires UniqueIds(store) && !Has(store, id) && 1 <= id <= k
    requires forall i :: 0 <= i < |store| ==> 1 <= store[i].fileId <= k
    ensures |ids| == |store| + 1 && Distinct(ids) && forall i :: 0 <= i < |ids| ==> ids[i] < k
  {
    var all := Ids(store) + [id];
    ids := seq(|all|, i requires 0 <= i < |all| => if all[i] == 0 then 0 else all[i] - 1);
  }

  /** A store with unique ids up to k that misses one of them has fewer than k containers. */
  lemma FewerThan(store: FileStore, id: nat, k: nat)
    requires UniqueIds(store) && !Has(store, id) && 1 <= id <= k
    requires forall i :: 0 <= i < |store| ==> 1 <= store[i].fileId <= k
    ensures |store| < k
  {
    var ids := ShiftIds(store, id, k);
    PigeonHole(ids, k);
  }

  /** If a file is missing from what the new index has inherited, there is room for it. */
  lemma InheritanceHasRoom(ring: nat, files: seq<File>, k: nat, id: nat)
    requires ring >= 4 && k <= |files| && 1 <= id <= |files| && !Has(Inheritance(ring, files, k), id)
    ensures |Inheritance(ring, files, k)| < |files|
  {
    var store := Inheritance(ring, files, k);
    InheritanceUnique(ring, files, k);
    forall i | 0 <= i < |store|
      ensures 1 <= store[i].fileId <= |files|
    {
      FoundUnderOwnId(store, i);
      LookupInherited(ring, files, k, store[i].fileId);
    }
    FewerThan(store, id, |files|);
  }

  lemma NextReportHasRoom(st: Rebuilt, ring: nat, files: seq<File>, order: seq<nat>, p: nat, n: nat)
    requires RebuiltFrom(st, ring, files, order) && 1 <= n < ring && p < |files| <= MAX_FILES
    ensures var store := SaveAll(st, Reports(StoreOf(ring, files[..p], n), n)).store;
            Find(store, p + 1).None? ==> |store| < MAX_FILES
  {
    var k := if NearIn(order) then |files| else 0;
    SaveOneNode(st, ring, files, k, p, n);
    HasIff(Inheritance(ring, files, Extent(n, k, p)), p + 1);
    if !Has(Inheritance(ring, files, Extent(n, k, p)), p + 1) {
      InheritanceHasRoom(ring, files, Extent(n, k, p), p + 1);
    }
  }

  lemma NextFitting(st: Rebuilt, ring: nat, files: seq<File>, order: seq<nat>, p: nat, n: nat)
    requires RebuiltFrom(st, ring, files, order) && 1 <= n < ring && p < |files| <= MAX_FILES
    requires Gain(ring, files[p], p + 1, n) != []
    ensures Fitting(SaveAll(st, Reports(StoreOf(ring, files[..p], n), n)),
                    ReportOf(Gain(ring, files[p], p + 1, n)[0], n))
  {
    NextReportFits(st, ring, files, order, p, n);
    NextReportHasRoom(st, ring, files, order, p, n);
    GainIds(ring, files[p], p + 1, n);
  }

  // ---------------------------------------------------------------- one session

  lemma FittingLast(st: Rebuilt, reports: seq<Report>, r: Report)
    requires AllFitting(st, reports) && Fitting(SaveAll(st, reports), r)
    ensures AllFitting(st, reports + [r])
  {
    var all := reports + [r];
    forall k | 0 <= k < |all|
      ensures Fitting(SaveAll(st, all[..k]), all[k])
    {
      if k < |reports| {
        assert all[..k] == reports[..k] && all[k] == reports[k];
      } else {
        assert all[..k] == reports && all[k] == r;
      }
    }
  }

  lemma ReportsGrow(ring: nat, files: seq<File>, p: nat, n: nat)
    requires ring >= 1 && p < |files|
    ensures var reports, gain := Reports(StoreOf(ring, files[..p], n), n), Gain(ring, files[p], p + 1, n);
            Reports(StoreOf(ring, files[..p + 1], n), n) ==
            if gain == [] then reports else reports + [ReportOf(gain[0], n)]
  {
    var store, gain := StoreOf(ring, files[..p], n), Gain(ring, files[p], p + 1, n);
    PrefixLast(files, p);
    StoreOfLast(ring, files[..p], files[p], n);
    GainIds(ring, files[p], p + 1, n);
    if gain == [] {
      assert store + gain == store;
    } else {
      assert store + gain == store + [gain[0]];
      ReportsLast(store, gain[0], n);
    }
  }

  lemma PrefixFittingStep(st: Rebuilt, ring: nat, files: seq<File>, order: seq<nat>, p: nat, n: nat)
    requires RebuiltFrom(st, ring, files, order) && 1 <= n < ring && p < |files| <= MAX_FILES
    ensures AllFitting(st, Reports(StoreOf(ring, files[..p], n), n)) ==>
              AllFitting(st, Reports(StoreOf(ring, files[..p + 1], n), n))
  {
    var reports, gain := Reports(StoreOf(ring, files[..p], n), n), Gain(ring, files[p], p + 1, n);
    ReportsGrow(ring, files, p, n);
    if gain != [] && AllFitting(st, reports) {
      NextFitting(st, ring, files, order, p, n);
      FittingLast(st, reports, ReportOf(gain[0], n));
    }
  }

  lemma {:induction false} PrefixFitting(st: Rebuilt, ring: nat, files: seq<File>, order: seq<nat>, p: nat, n: nat)
    requires 1 <= n < ring && p <= |files| <= MAX_FILES
    ensures RebuiltFrom(st, ring, files, order) ==> AllFitting(st, Reports(StoreOf(ring, files[..p], n), n))
  {
    if p > 0 && RebuiltFrom(st, ring, files, order) {
      PrefixFitting(st, ring, files, order, p - 1, n);
      PrefixFittingStep(st, ring, files, order, p - 1, n);
    }
  }

  /** Whoever has reported before, everything a node reports about its files fits: each report is written inside the
      table of its file, and there is room for each container the new index opens. */
  lemma SessionFits(st: Rebuilt, ring: nat, files: seq<File>, order: seq<nat>, n: nat)
    requires 1 <= n < ring && |files| <= MAX_FILES
    ensures RebuiltFrom(st, ring, files, order) ==> AllFitting(st, Reports(StoreOf(ring, files, n), n))
  {
    assert files[..|files|] == files;
    PrefixFitting(st, ring, files, order, |files|, n);
  }

  // ---------------------------------------------------------------- a takeover

  lemma NothingRebuilt(st: Rebuilt, ring: nat, files: seq<File>, order: seq<nat>)
    requires ring >= 4 && order == [] && st.index == [] && st.store == StoreOf(ring, files, ring - 1)
    ensures RebuiltFrom(st, ring, files, order)
  {
    NothingInherited(ring, files);
  }

  /** Taking stock of its own files, the new index stays inside its tables. */
  lemma OwnSessionFits(st: Rebuilt, ring: nat, files: seq<File>, leader: nat)
    requires ring >= 4 && leader == ring - 1 && |files| <= MAX_FILES
    requires st.index == [] && st.store == StoreOf(ring, files, leader)
    ensures AllFitting(st, Reports(st.store, leader))
  {
    var none: seq<nat> := [];
    NothingRebuilt(st, ring, files, none);
    SessionFits(st, ring, files, none, leader);
  }

  /** What the new index has rebuilt so far is as the reports of these nodes leave it. */
  lemma RebuiltSoFar(s: System, ring: nat, files: seq<File>, order: seq<nat>)
    requires ring >= 4 && AsStored(s, ring, files) && Distinct(order)
    requires forall k :: 0 <= k < |order| ==> 1 <= order[k] < ring
    ensures RebuiltFrom(RebuiltBy(s, ring - 1, order), ring, files, order)
  {
    StoredLayout(s, ring, files);
    RebuiltStoreIs(s.stores, ring, files, order);
    forall id: nat
      ensures TableOf(RebuiltBy(s, ring - 1, order).index, id) == FoldTable(Abouts(ring, files, order, id))
    {
      SaveNodesTable(s.stores, StoreOf(ring, files, ring - 1), ring, files, order, id);
    }
  }
}
