/** lib/fileserver/fs.c: a node's table of file containers, kept in a fixed array that is filled from the front. */
module FileServers {
  import opened Types
  import opened Storage
  import opened Cluster

  /** What is kept of a file's description. */
  function Kept(m: Meta): Meta {
    m.(name := Stem(m.name))
  }

  class FileServer {
    var fileCount: nat
    const files: array<Container>

    predicate Valid()
      reads this
    {
      files.Length == MAX_FILES && fileCount <= MAX_FILES
    }

    /** The containers in use. */
    function Contents(): (store: FileStore)
      requires Valid()
      reads this, files
      ensures |store| == fileCount
    {
      files[..fileCount]
    }

    /** xfileserver_init. */
    constructor ()
      ensures Valid() && fresh(files) && Contents() == []
    {
      fileCount := 0;
      files := new Container[MAX_FILES];
    }

    /** xfileserver_add_file. The name is cut off after 199 characters. The code does not look whether there is room;
        its callers have to. */
    method AddFile(m: Meta) returns (i: nat)
      requires Valid() && fileCount < MAX_FILES
      modifies this, files
      ensures Valid() && i == old(fileCount) && fileCount == i + 1
      ensures Contents() == old(Contents()) + [Fresh(Kept(m))]
    {
      i := fileCount;
      fileCount := fileCount + 1;
      files[i] := Container(Stem(m.name), m.fileId, m.size, m.total, FREE, FREE);
    }

    /** xfileserver_add_fragment, on the container at position i. */
    method AddFragmentAt(i: nat, id: nat, data: seq<byte>)
      requires Valid() && i < fileCount
      modifies files
      ensures Valid() && Contents() == old(Contents())[i := AddFragment(old(Contents())[i], id, data)]
    {
      if files[i].s0.id == 0 {
        files[i] := files[i].(s0 := Slot(id, data));
      } else {
        files[i] := files[i].(s1 := Slot(id, data));
      }
    }

    /** xfileserver_find_file: the first container with this id. */
    method FindFile(id: nat) returns (r: Option<nat>)
      requires Valid()
      ensures r == Find(Contents(), id)
    {
      for i := 0 to fileCount
        invariant forall j :: 0 <= j < i ==> files[j].fileId != id
      {
        if files[i].fileId == id {
          FoundAt(Contents(), id, i);
          return Some(i);
        }
      }
      return None;
    }

    /** xfileserver_find_file_by_name: the first container with this name, itself cut off after 199 characters. */
    method FindFileByName(name: string) returns (r: Option<nat>)
      requires Valid()
      ensures r == FindName(Contents(), Stem(name))
    {
      var wanted := Stem(name);
      for i := 0 to fileCount
        invariant forall j :: 0 <= j < i ==> files[j].name != wanted
      {
        if files[i].name == wanted {
          NameAt(Contents(), wanted, i);
          return Some(i);
        }
      }
      return None;
    }

    /** A node is sent a fragment: it opens a container when the fragment is announced (main.c:629-632) and adds the
        bytes once they are in (main.c:1146-1164). */
    method ReceiveFragment(m: Meta, id: nat, data: seq<byte>)
      requires Valid() && (Find(Contents(), m.fileId).None? ==> fileCount < MAX_FILES)
      modifies this, files
      ensures Valid() && Contents() == StoreFragment(old(Contents()), Kept(m), id, data)
    {
      var found := FindFile(m.fileId);
      match found {
        case Some(i) => AddFragmentAt(i, id, data);
        case None =>
          var i := AddFile(m);
          AddFragmentAt(i, id, data);
      }
    }
  }

  // ---------------------------------------------------------------- searching from the front

  lemma FoundAt(store: FileStore, id: nat, i: nat)
    requires IsFirstId(store, id, i)
    ensures Find(store, id) == Some(i)
  {
    assert Find(store, id).Some?;
  }

  lemma NameAt(store: FileStore, name: string, i: nat)
    requires IsFirstName(store, name, i)
    ensures FindName(store, name) == Some(i)
  {
    assert FindName(store, name).Some?;
  }
}
