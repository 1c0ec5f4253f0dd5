/** lib/fileserver/fni.c: the index's linked list of placement tables, with a tail pointer for appending. */
module NetIndexes {
  import opened Types
  import opened Cluster
  import opened Rebuild
  import opened Failover

  /** One file of the list. Its table is a calloc'ed array. */
  class IndexNode {
    const fileId: nat
    const fragments: array<Pointer>
    var next: IndexNode?

    /** xfilenetindex_new_file. */
    constructor (id: nat, total: nat)
      ensures fileId == id && next == null
      ensures fresh(fragments) && fragments[..] == Blanks(total)
    {
      fileId := id;
      fragments := new Pointer[total](_ => BLANK);
      next := null;
      new;
      assert fragments[..] == Blanks(total);
    }
  }

  ghost function EntryAt(n: IndexNode): IndexEntry
    reads n.fragments
  {
    IndexEntry(n.fileId, n.fragments[..])
  }

  ghost function EntriesOf(nodes: seq<IndexNode>, tables: set<array<Pointer>>): (entries: seq<IndexEntry>)
    requires forall i :: 0 <= i < |nodes| ==> nodes[i].fragments in tables
    reads tables
    ensures |entries| == |nodes| && forall i :: 0 <= i < |nodes| ==> entries[i] == EntryAt(nodes[i])
  {
    if nodes == [] then [] else EntriesOf(nodes[..|nodes| - 1], tables) + [EntryAt(nodes[|nodes| - 1])]
  }

  /** The nodes are linked in this order, the last one to nothing. */
  ghost predicate Linked(nodes: seq<IndexNode>)
    reads nodes
  {
    forall i :: 0 <= i < |nodes| ==> nodes[i].next == if i + 1 < |nodes| then nodes[i + 1] else null
  }

  lemma LinkedAt(nodes: seq<IndexNode>, k: nat)
    requires Linked(nodes) && k < |nodes|
    ensures nodes[k].next == if k + 1 < |nodes| then nodes[k + 1] else null
  {
  }

  /** Each node and each table has its one position in the list: no node occurs twice, no two share a table. */
  ghost predicate Separate(nodes: seq<IndexNode>, place: map<IndexNode, nat>, slot: map<array<Pointer>, nat>) {
    forall i :: 0 <= i < |nodes| ==>
      && nodes[i] in place && place[nodes[i]] == i
      && nodes[i].fragments in slot && slot[nodes[i].fragments] == i
  }

  /** Position k is the first one with this id. */
  predicate FirstWith(entries: seq<IndexEntry>, id: nat, k: nat) {
    k < |entries| && entries[k].fileId == id && forall j :: 0 <= j < k ==> entries[j].fileId != id
  }

  /** `nodes` lists the nodes in order; `place` and `slot` give the position of each node and of each table. */
  class NetIndex {
    var fileCount: nat
    var files: IndexNode?
    var tail: IndexNode?
    ghost var nodes: seq<IndexNode>
    ghost var place: map<IndexNode, nat>
    ghost var slot: map<array<Pointer>, nat>

    /** The list from `files` is exactly `nodes`: acyclic, as long as the count says, and ending at the tail. */
    ghost predicate Valid()
      reads this, place.Keys
    {
      && Separate(nodes, place, slot)
      && fileCount == |nodes| && Linked(nodes)
      && files == (if nodes == [] then null else nodes[0])
      && tail == (if nodes == [] then null else nodes[|nodes| - 1])
    }

    ghost function Entries(): seq<IndexEntry>
      requires Valid()
      reads this, place.Keys, slot.Keys
    {
      EntriesOf(nodes, slot.Keys)
    }

    /** xfilenetindex_init. */
    constructor ()
      ensures Valid() && nodes == [] && place == map[] && slot == map[] && Entries() == []
    {
      fileCount := 0;
      files := null;
      tail := null;
      nodes := [];
      place := map[];
      slot := map[];
    }

    /** xfilenetindex_add_file. */
    method Link(file: IndexNode)
      requires Valid() && file.next == null && file !in place && file.fragments !in slot
      modifies this, tail
      ensures Valid() && nodes == old(nodes) + [file]
      ensures place.Keys == old(place.Keys) + {file} && slot.Keys == old(slot.Keys) + {file.fragments}
    {
      if files == null {
        files := file;
        tail := file;
      } else {
        tail.next := file;
        tail := file;
      }
      place := place[file := fileCount];
      slot := slot[file.fragments := fileCount];
      fileCount := fileCount + 1;
      nodes := nodes + [file];
    }

    /** Adding is appending. */
    method AddFile(file: IndexNode)
      requires Valid() && file.next == null && file !in place && file.fragments !in slot
      modifies this, place.Keys
      ensures Valid() && nodes == old(nodes) + [file]
      ensures place.Keys == old(place.Keys) + {file} && slot.Keys == old(slot.Keys) + {file.fragments}
      ensures Entries() == old(Entries()) + [EntryAt(file)]
    {
      Link(file);
      assert nodes[..|nodes| - 1] == old(nodes);
    }

    /** xfilenetindex_find_file: the first node with this id, or null. */
    method FindFile(id: nat) returns (found: IndexNode?, ghost k: nat)
      requires Valid()
      ensures found == null ==> forall i :: 0 <= i < |nodes| ==> nodes[i].fileId != id
      ensures found != null ==> k < |nodes| && nodes[k] == found && FirstWith(Entries(), id, k)
    {
      found := files;
      k := 0;
      while found != null
        invariant k <= |nodes| && found == (if k < |nodes| then nodes[k] else null)
        invariant forall i :: 0 <= i < k ==> nodes[i].fileId != id
        decreases |nodes| - k
      {
        if found.fileId == id {
          return;
        }
        LinkedAt(nodes, k);
        found := found.next;
        k := k + 1;
      }
    }
  }

  // ---------------------------------------------------------------- what finding and updating in place mean

  lemma {:induction false} FirstIsFound(entries: seq<IndexEntry>, id: nat, k: nat)
    requires FirstWith(entries, id, k)
    ensures TableOf(entries, id) == Some(entries[k].table)
  {
    var front, last := entries[..|entries| - 1], entries[|entries| - 1];
    FrontLast(entries);
    TableOfLast(front, last, id);
    if k < |front| {
      FirstIsFound(front, id, k);
    } else {
      NoneFound(front, id);
    }
  }

  lemma {:induction false} NoneFound(entries: seq<IndexEntry>, id: nat)
    requires forall i :: 0 <= i < |entries| ==> entries[i].fileId != id
    ensures TableOf(entries, id) == None
  {
    if entries != [] {
      NoneFound(entries[..|entries| - 1], id);
    }
  }

  /** Replacing the table found under an id is an update in place of its first entry. */
  lemma {:induction false} FirstIsReplaced(entries: seq<IndexEntry>, id: nat, k: nat, table: seq<Pointer>)
    requires FirstWith(entries, id, k)
    ensures SetTable(entries, id, table) == entries[k := IndexEntry(id, table)]
  {
    var front, last := entries[..|entries| - 1], entries[|entries| - 1];
    FrontLast(entries);
    if k < |front| {
      FirstIsFound(front, id, k);
      FirstIsReplaced(front, id, k, table);
    } else {
      NoneFound(front, id);
    }
  }
}
