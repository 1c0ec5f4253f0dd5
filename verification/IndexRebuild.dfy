/** xprocedure_save_file_to_index and its callers on the mutable containers: the linked index and the file table. */
module IndexRebuild {
  import opened Types
  import opened Split
  import opened Placement
  import opened Storage
  import opened Cluster
  import opened Rebuild
  import opened Failover
  import opened FileServers
  import opened NetIndexes

  /** The entries of the index with one for this file, appended if there was none. */
  ghost function WithEntry(entries: seq<IndexEntry>, id: nat, total: nat): seq<IndexEntry> {
    if TableOf(entries, id).None? then entries + [IndexEntry(id, Blanks(total))] else entries
  }

  /** Adds a file with a blank table. */
  method AddBlank(idx: NetIndex, id: nat, total: nat) returns (node: IndexNode)
    requires idx.Valid()
    modifies idx, idx.place.Keys
    ensures idx.Valid() && idx.nodes == old(idx.nodes) + [node]
    ensures fresh(node.fragments)
    ensures idx.Entries() == old(idx.Entries()) + [IndexEntry(id, Blanks(total))]
  {
    node := new IndexNode(id, total);
    assert idx.Entries() == old(idx.Entries());
    idx.AddFile(node);
  }

  lemma FirstAppended(entries: seq<IndexEntry>, e: IndexEntry)
    requires forall i :: 0 <= i < |entries| ==> entries[i].fileId != e.fileId
    ensures FirstWith(entries + [e], e.fileId, |entries|)
  {
  }

  /** Finds the file in the index, or adds it with a blank table. */
  method FindOrAdd(idx: NetIndex, id: nat, total: nat) returns (node: IndexNode, ghost k: nat)
    requires idx.Valid()
    modifies idx, idx.place.Keys
    ensures idx.Valid() && idx.Entries() == WithEntry(old(idx.Entries()), id, total)
    ensures k < |idx.nodes| && idx.nodes[k] == node && FirstWith(idx.Entries(), id, k)
    ensures fresh(node.fragments) || node.fragments in old(idx.slot)
  {
    var found;
    found, k := idx.FindFile(id);
    if found == null {
      NoneFound(idx.Entries(), id);
      FirstAppended(idx.Entries(), IndexEntry(id, Blanks(total)));
      node := AddBlank(idx, id, total);
      k := |idx.nodes| - 1;
    } else {
      FirstIsFound(idx.Entries(), id, k);
      node := found;
    }
  }

  /** Writes one report into the table of the k-th file, in place; the other tables stay as they are. */
  method UpdateTable(idx: NetIndex, node: IndexNode, ghost k: nat, r: Report)
    requires idx.Valid() && k < |idx.nodes| && idx.nodes[k] == node
    requires node.fragments.Length == 2 * r.m.total && WritesInBounds(node.fragments[..], r.r0, r.r1)
    modifies node.fragments
    ensures idx.Valid() && idx.place.Keys == old(idx.place.Keys) && idx.slot.Keys == old(idx.slot.Keys)
    ensures idx.Entries() ==
            old(idx.Entries())[k := IndexEntry(node.fileId, ApplyReport(old(node.fragments[..]), r.r0, r.r1))]
  {
    SaveReport(node.fragments, r.m.total, r.r0, r.r1);
    assert forall i :: 0 <= i < |idx.nodes| && i != k ==> idx.nodes[i].fragments != node.fragments;
  }

  lemma EntryOfReport(entries: seq<IndexEntry>, r: Report, k: nat)
    requires FirstWith(WithEntry(entries, r.m.fileId, 2 * r.m.total), r.m.fileId, k)
    ensures WithEntry(entries, r.m.fileId, 2 * r.m.total)[k] ==
            IndexEntry(r.m.fileId, OrBlank(TableOf(entries, r.m.fileId), r.m.total))
  {
    FirstIsFound(WithEntry(entries, r.m.fileId, 2 * r.m.total), r.m.fileId, k);
    TableOfLast(entries, IndexEntry(r.m.fileId, Blanks(2 * r.m.total)), r.m.fileId);
  }

  /** The index half of xprocedure_save_file_to_index. */
  method SaveToIndex(idx: NetIndex, r: Report)
    requires idx.Valid() && ReportFits(idx.Entries(), r)
    modifies idx, idx.place.Keys, idx.slot.Keys
    ensures idx.Valid() && Same(idx.Entries(), SavedIndex(old(idx.Entries()), r))
  {
    var node, k := FindOrAdd(idx, r.m.fileId, 2 * r.m.total);
    ghost var entries := idx.Entries();
    EntryOfReport(old(idx.Entries()), r, k);
    assert entries[k] == EntryAt(node);
    ghost var table := node.fragments[..];
    UpdateTable(idx, node, k, r);
    FirstIsReplaced(entries, r.m.fileId, k, ApplyReport(table, r.r0, r.r1));
  }

  /** The file-table half: the new index opens a container for a file it has not got. */
  method SaveToStore(fs: FileServer, m: Meta)
    requires fs.Valid() && (Find(fs.Contents(), m.fileId).None? ==> fs.fileCount < MAX_FILES)
    modifies fs, fs.files
    ensures fs.Valid() && Same(fs.Contents(), SavedStore(old(fs.Contents()), Kept(m)))
  {
    var found := fs.FindFile(m.fileId);
    if found.None? {
      var i := fs.AddFile(m);
    }
  }

  /** Saving to the file table leaves the index alone. */
  method SaveStoreBeside(fs: FileServer, idx: NetIndex, m: Meta)
    requires fs.Valid() && idx.Valid() && (Find(fs.Contents(), m.fileId).None? ==> fs.fileCount < MAX_FILES)
    modifies fs, fs.files
    ensures fs.Valid() && Same(fs.Contents(), SavedStore(old(fs.Contents()), Kept(m)))
    ensures idx.Valid() && Same(idx.Entries(), old(idx.Entries()))
  {
    assert forall t :: t in idx.slot.Keys ==> (t as object) != (fs.files as object);
    SaveToStore(fs, m);
  }

  /** Saving to the index leaves the file table alone. */
  method SaveIndexBeside(fs: FileServer, idx: NetIndex, r: Report)
    requires fs.Valid() && idx.Valid() && ReportFits(idx.Entries(), r)
    modifies idx, idx.place.Keys, idx.slot.Keys
    ensures idx.Valid() && Same(idx.Entries(), SavedIndex(old(idx.Entries()), r))
    ensures fs.Valid() && Same(fs.Contents(), old(fs.Contents()))
  {
    assert forall t :: t in idx.slot.Keys ==> (t as object) != (fs.files as object);
    SaveToIndex(idx, r);
  }

  /** xprocedure_save_file_to_index: the code does what SaveFile says. */
  method SaveFileToIndex(fs: FileServer, idx: NetIndex, r: Report)
    requires fs.Valid() && idx.Valid() && Fitting(Rebuilt(idx.Entries(), fs.Contents()), r)
    modifies fs, fs.files, idx, idx.place.Keys, idx.slot.Keys
    ensures fs.Valid() && Same(fs.Contents(), SavedStore(old(fs.Contents()), Kept(r.m)))
    ensures idx.Valid() && Same(idx.Entries(), SavedIndex(old(idx.Entries()), r))
  {
    SaveStoreBeside(fs, idx, r.m);
    SaveIndexBeside(fs, idx, r);
  }

  // ---------------------------------------------------------------- making reports

  /** What a node reports about one of its files. */
  method MakeReport(c: Container, me: nat) returns (r: Report)
    ensures r == ReportOf(c, me)
  {
    var r0, r1 := BLANK, BLANK;
    if c.s0.id != 0 {
      r0 := Pointer(c.s0.id, |c.s0.data|, me);
    }
    if c.s1.id != 0 {
      r1 := Pointer(c.s1.id, |c.s1.data|, me);
    }
    r := Report(Meta(c.name, c.fileId, c.size, c.total), r0, r1);
  }

  /** What a node reports about all its files (main.c:420-446), and what a new index reports to itself (157-190). */
  method MakeReports(fs: FileServer, me: nat) returns (reports: seq<Report>)
    requires fs.Valid()
    ensures Same(reports, Reports(fs.Contents(), me))
  {
    ghost var store := fs.Contents();
    reports := [];
    for i := 0 to fs.fileCount
      invariant Same(reports, Reports(store[..i], me))
    {
      var r := MakeReport(fs.files[i], me);
      PrefixLast(store, i);
      ReportsLast(store[..i], store[i], me);
      reports := reports + [r];
    }
    assert store[..fs.fileCount] == store;
  }

  // ---------------------------------------------------------------- new files

  method AddFileBeside(fs: FileServer, idx: NetIndex, m: Meta)
    requires fs.Valid() && idx.Valid() && fs.fileCount < MAX_FILES
    modifies fs, fs.files
    ensures fs.Valid() && Same(fs.Contents(), old(fs.Contents()) + [Fresh(Kept(m))])
    ensures idx.Valid() && Same(idx.Entries(), old(idx.Entries()))
  {
    assert forall t :: t in idx.slot.Keys ==> (t as object) != (fs.files as object);
    var i := fs.AddFile(m);
  }

  /** SERVER_INDEX_HANDLE_NEW_FILE: the file gets the next id, a container and a placement table. */
  method HandleNewFile(fs: FileServer, idx: NetIndex, v: IndexView, f: File)
    requires fs.Valid() && idx.Valid() && fs.fileCount < MAX_FILES && Sized(v) && v.netSize > 0
    modifies fs, fs.files, idx, idx.place.Keys
    ensures fs.Valid() && idx.Valid()
    ensures Same(fs.Contents(), old(fs.Contents()) + [Fresh(MetaFor(f, |old(fs.Contents())| + 1, v.netSize))])
    ensures Same(idx.Entries(), old(idx.Entries()) + [IndexEntry(|old(fs.Contents())| + 1, TableFor(v, f))])
    ensures |TableFor(v, f)| == 2 * if |f.data| <= 100 || |f.data| <= v.netSize then 1 else v.netSize
  {
    var count := v.netSize;
    if |f.data| <= v.netSize || |f.data| <= MINIMAL_SIZE_FOR_SPLIT {
      count := 1;
    }
    var id := fs.fileCount + 1;
    AddFileBeside(fs, idx, Meta(f.name, id, |f.data|, count));
    AddPlacedBeside(fs, idx, v, |f.data|, count, id);
  }

  method AddPlacedBeside(fs: FileServer, idx: NetIndex, v: IndexView, size: nat, count: nat, id: nat)
    requires fs.Valid() && idx.Valid() && Sized(v) && count > 0
    modifies idx, idx.place.Keys
    ensures idx.Valid()
    ensures Same(idx.Entries(), old(idx.Entries()) + [IndexEntry(id, Placed(v, FragmentSizes(size, count)))])
    ensures fs.Valid() && Same(fs.Contents(), old(fs.Contents()))
  {
    AddPlaced(idx, v, size, count, id);
  }

  method AddPlaced(idx: NetIndex, v: IndexView, size: nat, count: nat, id: nat)
    requires idx.Valid() && Sized(v) && count > 0
    modifies idx, idx.place.Keys
    ensures idx.Valid()
    ensures idx.Entries() == old(idx.Entries()) + [IndexEntry(id, Placed(v, FragmentSizes(size, count)))]
  {
    var node := new IndexNode(id, 2 * count);
    assert node.fragments.Length == |node.fragments[..]|;
    forall p | 0 <= p < node.fragments.Length
      ensures node.fragments[p] == BLANK
    {
      assert node.fragments[..][p] == BLANK;
    }
    PlaceFragments(v, size, count, node.fragments);
    assert idx.Entries() == old(idx.Entries());
    idx.AddFile(node);
  }
}
