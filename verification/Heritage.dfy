/** The new index's own store after the rebuild. It starts with what the leader held itself, which is its part of
    the split files; the first of nodes 1 and 2 to report adds the unsplit ones; nobody else adds anything. */
module Heritage {
  import opened Types
  import opened Split
  import opened Storage
  import opened Cluster
  import opened PutPhase
  import opened Failover

  predicate IsSplit(ring: nat, f: File) {
    FragmentCount(|f.data|, ring) > 1
  }

  /** Containers without fragments for the unsplit files, in the order of their ids. */
  function Wholes(ring: nat, files: seq<File>): FileStore {
    if files == [] then []
    else
      var front, last := files[..|files| - 1], files[|files| - 1];
      Wholes(ring, front) + if IsSplit(ring, last) then [] else [Fresh(MetaFor(last, |files|, ring))]
  }

  /** The first k files, or all of them. */
  function Upto(files: seq<File>, k: nat): seq<File> {
    if k <= |files| then files[..k] else files
  }

  /** The leader's own store, and the unsplit ones among the first k files. */
  function Inheritance(ring: nat, files: seq<File>, k: nat): FileStore
    requires ring >= 2
  {
    StoreOf(ring, files, ring - 1) + Wholes(ring, Upto(files, k))
  }

  // ---------------------------------------------------------------- who holds what

  /** Nodes from 3 on, apart from the index, hold parts of the split files only. */
  predicate Far(ring: nat, n: nat) {
    3 <= n < ring
  }

  lemma FarGain(ring: nat, f: File, id: nat, n: nat)
    requires Far(ring, n)
    ensures Gain(ring, f, id, n) != [] <==> IsSplit(ring, f)
  {
    GainOnRing(ring, f, id, n);
  }

  lemma NearGain(ring: nat, f: File, id: nat, n: nat)
    requires ring >= 3 && (n == 1 || n == 2)
    ensures Gain(ring, f, id, n) != []
  {
    GainOnRing(ring, f, id, n);
  }

  lemma LookupConcat(a: FileStore, b: FileStore, id: nat)
    ensures Lookup(a + b, id) == if Lookup(a, id).Some? then Lookup(a, id) else Lookup(b, id)
    decreases |b|
  {
    if b == [] {
      assert a + b == a;
    } else {
      var front, last := b[..|b| - 1], b[|b| - 1];
      assert b == front + [last] && a + b == (a + front) + [last];
      LookupConcat(a, front, id);
      LookupLast(a + front, last, id);
      LookupLast(front, last, id);
    }
  }

  lemma WholesLast(ring: nat, files: seq<File>, f: File)
    ensures Wholes(ring, files + [f]) ==
            Wholes(ring, files) + if IsSplit(ring, f) then [] else [Fresh(MetaFor(f, |files| + 1, ring))]
  {
    assert (files + [f])[..|files + [f]| - 1] == files;
  }

  lemma {:induction false} LookupInWholes(ring: nat, files: seq<File>, id: nat)
    ensures Lookup(Wholes(ring, files), id) ==
            if 1 <= id <= |files| && !IsSplit(ring, files[id - 1]) then Some(Fresh(MetaFor(files[id - 1], id, ring)))
            else None
  {
    if files != [] {
      var front, last := files[..|files| - 1], files[|files| - 1];
      FrontLast(files);
      LookupInWholes(ring, front, id);
      WholesLast(ring, front, last);
      LookupConcat(Wholes(ring, front), if IsSplit(ring, last) then [] else [Fresh(MetaFor(last, |files|, ring))], id);
      if !IsSplit(ring, last) {
        LookupLast([], Fresh(MetaFor(last, |files|, ring)), id);
        assert [] + [Fresh(MetaFor(last, |files|, ring))] == [Fresh(MetaFor(last, |files|, ring))];
      }
    }
  }

  lemma LookupOutside(ring: nat, files: seq<File>, n: nat, id: nat)
    requires ring >= 1 && !(1 <= id <= |files|)
    ensures Lookup(StoreOf(ring, files, n), id).None?
  {
    IdsInOrder(ring, files, n);
  }

  /** The store has a container for this file. */
  predicate Has(store: FileStore, id: nat) {
    exists i :: 0 <= i < |store| && store[i].fileId == id
  }

  lemma HasIff(store: FileStore, id: nat)
    ensures Has(store, id) == Lookup(store, id).Some?
  {
  }

  lemma FirstSome(store: FileStore)
    ensures First(store).Some? <==> store != []
  {
  }

  lemma FarHasInside(ring: nat, files: seq<File>, n: nat, id: nat)
    requires Far(ring, n) && 1 <= id <= |files|
    ensures Lookup(StoreOf(ring, files, n), id).Some? <==> IsSplit(ring, files[id - 1])
  {
    LookupInStore(ring, files, n, id);
    FirstSome(Gain(ring, files[id - 1], id, n));
    FarGain(ring, files[id - 1], id, n);
  }

  /** File `id` is one of these, and split. */
  predicate SplitFile(ring: nat, files: seq<File>, id: nat) {
    1 <= id <= |files| && IsSplit(ring, files[id - 1])
  }

  /** The far nodes, the leader among them, have the split files. */
  lemma FarHas(ring: nat, files: seq<File>, n: nat, id: nat)
    requires Far(ring, n)
    ensures Has(StoreOf(ring, files, n), id) == SplitFile(ring, files, id)
  {
    HasIff(StoreOf(ring, files, n), id);
    if 1 <= id <= |files| {
      FarHasInside(ring, files, n, id);
    } else {
      LookupOutside(ring, files, n, id);
    }
  }

  /** File `id` is one of the first k, and not split. */
  predicate WholeFile(ring: nat, files: seq<File>, k: nat, id: nat) {
    1 <= id <= |files| && id <= k && !IsSplit(ring, files[id - 1])
  }

  lemma WholesHave(ring: nat, files: seq<File>, k: nat, id: nat)
    requires k <= |files|
    ensures Has(Wholes(ring, Upto(files, k)), id) == WholeFile(ring, files, k, id)
  {
    LookupInWholes(ring, Upto(files, k), id);
    HasIff(Wholes(ring, Upto(files, k)), id);
  }

  /** The inheritance has the split files and the unsplit ones among the first k. */
  lemma LookupInherited(ring: nat, files: seq<File>, k: nat, id: nat)
    requires ring >= 4 && k <= |files|
    ensures Has(Inheritance(ring, files, k), id) == (SplitFile(ring, files, id) || WholeFile(ring, files, k, id))
  {
    FarHas(ring, files, ring - 1, id);
    WholesHave(ring, files, k, id);
    ConcatHas(StoreOf(ring, files, ring - 1), Wholes(ring, Upto(files, k)), id);
  }

  lemma ConcatHas(own: FileStore, wholes: FileStore, id: nat)
    ensures Has(own + wholes, id) == (Has(own, id) || Has(wholes, id))
  {
    var all := own + wholes;
    if i :| 0 <= i < |own| && own[i].fileId == id {
      assert all[i].fileId == id;
    }
    if i :| 0 <= i < |wholes| && wholes[i].fileId == id {
      assert all[|own| + i].fileId == id;
    }
  }

  // ---------------------------------------------------------------- one more report

  /** How far the unsplit files go once node n has reported the first p files, when they went up to k before. */
  function Extent(n: nat, k: nat, p: nat): nat {
    if n <= 2 && k < p then p else k
  }

  lemma InheritanceGrows(ring: nat, files: seq<File>, p: nat)
    requires ring >= 2 && p < |files|
    ensures Inheritance(ring, files, p + 1) ==
            if IsSplit(ring, files[p]) then Inheritance(ring, files, p)
            else Inheritance(ring, files, p) + [Fresh(MetaFor(files[p], p + 1, ring))]
  {
    assert files[..p + 1] == files[..p] + [files[p]];
    WholesLast(ring, files[..p], files[p]);
  }

  lemma SavedIf(store: FileStore, m: Meta)
    ensures Has(store, m.fileId) ==> Same(SavedStore(store, m), store)
    ensures !Has(store, m.fileId) ==> Same(SavedStore(store, m), store + [Fresh(m)])
  {
    HasIff(store, m.fileId);
  }

  lemma SaveFresh(ring: nat, files: seq<File>, p: nat)
    requires ring >= 4 && p < |files|
    ensures Same(SavedStore(Inheritance(ring, files, p), MetaFor(files[p], p + 1, ring)),
                 Inheritance(ring, files, p + 1))
  {
    LookupInherited(ring, files, p, p + 1);
    SavedIf(Inheritance(ring, files, p), MetaFor(files[p], p + 1, ring));
    InheritanceGrows(ring, files, p);
  }

  lemma SaveAgain(ring: nat, files: seq<File>, p: nat)
    requires ring >= 4 && p < |files|
    ensures Same(SavedStore(Inheritance(ring, files, |files|), MetaFor(files[p], p + 1, ring)),
                 Inheritance(ring, files, |files|))
  {
    LookupInherited(ring, files, |files|, p + 1);
    SavedIf(Inheritance(ring, files, |files|), MetaFor(files[p], p + 1, ring));
  }

  /** What saving the report on file p + 1 does to the store, for the first nodes. */
  lemma SaveNear(ring: nat, files: seq<File>, k: nat, p: nat, n: nat)
    requires ring >= 4 && n <= 2 && p < |files| && (k == 0 || k == |files|)
    ensures Same(SavedStore(Inheritance(ring, files, Extent(n, k, p)), MetaFor(files[p], p + 1, ring)),
                 Inheritance(ring, files, Extent(n, k, p + 1)))
  {
    if k == 0 {
      SaveFresh(ring, files, p);
    } else {
      SaveAgain(ring, files, p);
    }
  }

  lemma SaveFar(ring: nat, files: seq<File>, k: nat, p: nat)
    requires ring >= 4 && p < |files| && k <= |files| && IsSplit(ring, files[p])
    ensures Same(SavedStore(Inheritance(ring, files, k), MetaFor(files[p], p + 1, ring)), Inheritance(ring, files, k))
  {
    LookupInherited(ring, files, k, p + 1);
    SavedIf(Inheritance(ring, files, k), MetaFor(files[p], p + 1, ring));
  }

  lemma SavedGainStore(st: Rebuilt, ring: nat, f: File, id: nat, n: nat)
    requires ring >= 1
    ensures Same(SavedGain(st, Gain(ring, f, id, n), n).store,
                 if Gain(ring, f, id, n) == [] then st.store else SavedStore(st.store, MetaFor(f, id, ring)))
  {
    GainIds(ring, f, id, n);
  }

  lemma SaveOne(st: Rebuilt, ring: nat, files: seq<File>, k: nat, p: nat, n: nat)
    requires ring >= 4 && 1 <= n < ring && p < |files| && (k == 0 || k == |files|)
    ensures Same(st.store, Inheritance(ring, files, Extent(n, k, p))) ==>
              Same(SavedGain(st, Gain(ring, files[p], p + 1, n), n).store,
                   Inheritance(ring, files, Extent(n, k, p + 1)))
  {
    SavedGainStore(st, ring, files[p], p + 1, n);
    if n <= 2 {
      NearGain(ring, files[p], p + 1, n);
      SaveNear(ring, files, k, p, n);
    } else {
      FarGain(ring, files[p], p + 1, n);
      if IsSplit(ring, files[p]) {
        SaveFar(ring, files, k, p);
      }
    }
  }

  lemma SavePrefix(st: Rebuilt, ring: nat, files: seq<File>, p: nat, n: nat)
    requires ring >= 1 && p < |files|
    ensures var gain := Gain(ring, files[p], p + 1, n);
            var before := SaveAll(st, Reports(StoreOf(ring, files[..p], n), n));
            Same(SaveAll(st, Reports(StoreOf(ring, files[..p + 1], n), n)), SavedGain(before, gain, n))
  {
    assert files[..p + 1] == files[..p] + [files[p]];
    SaveStoreLast(st, ring, files[..p], files[p], n);
  }

  /** After node n's reports on the first p files the store is as it should be. */
  ghost predicate SavedUpTo(st: Rebuilt, ring: nat, files: seq<File>, k: nat, p: nat, n: nat)
    requires ring >= 2 && p <= |files|
  {
    Same(SaveAll(st, Reports(StoreOf(ring, files[..p], n), n)).store, Inheritance(ring, files, Extent(n, k, p)))
  }

  lemma SaveNothing(st: Rebuilt, ring: nat, files: seq<File>, k: nat, n: nat)
    requires ring >= 2
    ensures Same(st.store, Inheritance(ring, files, k)) ==> SavedUpTo(st, ring, files, k, 0, n)
  {
    assert files[..0] == [];
  }

  lemma SaveOneMore(st: Rebuilt, ring: nat, files: seq<File>, k: nat, p: nat, n: nat)
    requires ring >= 4 && 1 <= n < ring && p < |files| && (k == 0 || k == |files|)
    ensures SavedUpTo(st, ring, files, k, p, n) ==> SavedUpTo(st, ring, files, k, p + 1, n)
  {
    SavePrefix(st, ring, files, p, n);
    SaveOne(SaveAll(st, Reports(StoreOf(ring, files[..p], n), n)), ring, files, k, p, n);
  }

  /** The reports of one node on the first p files. */
  lemma {:induction false} SaveOneNode(st: Rebuilt, ring: nat, files: seq<File>, k: nat, p: nat, n: nat)
    requires ring >= 4 && 1 <= n < ring && p <= |files| && (k == 0 || k == |files|)
    ensures Same(st.store, Inheritance(ring, files, k)) ==> SavedUpTo(st, ring, files, k, p, n)
  {
    if p == 0 {
      SaveNothing(st, ring, files, k, n);
    } else {
      SaveOneNode(st, ring, files, k, p - 1, n);
      SaveOneMore(st, ring, files, k, p - 1, n);
    }
  }

  // ---------------------------------------------------------------- all reports

  /** One of the first two nodes is among these. */
  predicate NearIn(order: seq<nat>) {
    1 in order || 2 in order
  }

  /** The store after the reports of these nodes. */
  function InheritedFrom(ring: nat, files: seq<File>, order: seq<nat>): FileStore
    requires ring >= 2
  {
    Inheritance(ring, files, if NearIn(order) then |files| else 0)
  }

  lemma NearLast(front: seq<nat>, n: nat)
    requires n >= 1
    ensures NearIn(front + [n]) <==> NearIn(front) || n <= 2
  {
    assert n in front + [n];
  }

  lemma SaveWholeNode(st: Rebuilt, ring: nat, files: seq<File>, k: nat, n: nat)
    requires ring >= 4 && 1 <= n < ring && (k == 0 || k == |files|)
    ensures Same(st.store, Inheritance(ring, files, k)) ==>
              Same(SaveAll(st, Reports(StoreOf(ring, files, n), n)).store,
                   Inheritance(ring, files, Extent(n, k, |files|)))
  {
    assert files[..|files|] == files;
    SaveOneNode(st, ring, files, k, |files|, n);
  }

  lemma InheritedLast(st: Rebuilt, ring: nat, files: seq<File>, front: seq<nat>, n: nat)
    requires ring >= 4 && 1 <= n < ring
    ensures Same(st.store, InheritedFrom(ring, files, front)) ==>
              Same(SaveAll(st, Reports(StoreOf(ring, files, n), n)).store, InheritedFrom(ring, files, front + [n]))
  {
    NearLast(front, n);
    SaveWholeNode(st, ring, files, if NearIn(front) then |files| else 0, n);
  }

  lemma NothingInherited(ring: nat, files: seq<File>)
    requires ring >= 2
    ensures InheritedFrom(ring, files, []) == StoreOf(ring, files, ring - 1)
  {
    assert StoreOf(ring, files, ring - 1) + [] == StoreOf(ring, files, ring - 1);
  }

  /** The exact store of the new index, whichever nodes have reported and in whatever order: its own containers, which
      are those of the split files, in the order of their ids; then, once one of nodes 1 and 2 has reported,
      those of the unsplit files, in the order of their ids. */
  lemma {:induction false} RebuiltStoreIs(stores: Stores, ring: nat, files: seq<File>, order: seq<nat>)
    requires ring >= 4 && Untouched(stores, ring, files, order) && forall k :: 0 <= k < |order| ==> 1 <= order[k] < ring
    ensures Same(SaveNodes(Rebuilt([], StoreOf(ring, files, ring - 1)), stores, order).store,
                 InheritedFrom(ring, files, order))
    decreases |order|
  {
    var st := Rebuilt([], StoreOf(ring, files, ring - 1));
    if order == [] {
      NothingInherited(ring, files);
    } else {
      var front, n := order[..|order| - 1], order[|order| - 1];
      FrontLast(order);
      UntouchedLast(stores, ring, files, front, n);
      RebuiltStoreIs(stores, ring, files, front);
      SaveNodesLast(st, stores, front, n);
      InheritedLast(SaveNodes(st, stores, front), ring, files, front, n);
    }
  }

  // ---------------------------------------------------------------- names

  /** The first split file with this name. */
  function FirstSplitNamed(ring: nat, files: seq<File>, name: string): (r: Option<nat>)
    ensures r.Some? ==> r.value < |files| && IsSplit(ring, files[r.value]) && HasName(files[r.value], name)
    ensures r.Some? ==> forall j :: 0 <= j < r.value && IsSplit(ring, files[j]) ==> !HasName(files[j], name)
    ensures r.None? ==> forall j :: 0 <= j < |files| && IsSplit(ring, files[j]) ==> !HasName(files[j], name)
  {
    if files == [] then None
    else
      match FirstSplitNamed(ring, files[..|files| - 1], name)
      case Some(g) => Some(g)
      case None =>
        var last := files[|files| - 1];
        if IsSplit(ring, last) && HasName(last, name) then Some(|files| - 1) else None
  }

  /** The file the new index finds under a name: the first split one that has it, or else the first one. */
  function Inheritor(ring: nat, files: seq<File>, name: string): Option<nat> {
    match FirstSplitNamed(ring, files, name)
    case Some(g) => Some(g)
    case None => FirstNamed(files, name)
  }

  lemma FirstSplitNamedLast(ring: nat, front: seq<File>, last: File, name: string)
    ensures FirstSplitNamed(ring, front + [last], name) ==
            if FirstSplitNamed(ring, front, name).Some? then FirstSplitNamed(ring, front, name)
            else if IsSplit(ring, last) && HasName(last, name) then Some(|front|) else None
  {
    assert (front + [last])[..|front + [last]| - 1] == front;
  }

  lemma FirstNamedLast(front: seq<File>, last: File, name: string)
    ensures FirstNamed(front + [last], name) ==
            if FirstNamed(front, name).Some? then FirstNamed(front, name)
            else if HasName(last, name) then Some(|front|) else None
  {
    assert (front + [last])[..|front + [last]| - 1] == front;
  }

  lemma LookupNameAppend(store: FileStore, gain: FileStore, name: string)
    requires |gain| <= 1
    ensures LookupName(store + gain, name) ==
            if LookupName(store, name).Some? then LookupName(store, name)
            else if gain != [] && gain[0].name == name then Some(gain[0]) else None
  {
    if gain == [] {
      assert store + gain == store;
    } else {
      assert store + gain == store + [gain[0]] && (store + gain)[..|store + gain| - 1] == store;
    }
  }

  lemma {:induction false} LookupNameConcat(a: FileStore, b: FileStore, name: string)
    ensures LookupName(a + b, name) == if LookupName(a, name).Some? then LookupName(a, name) else LookupName(b, name)
    decreases |b|
  {
    if b == [] {
      assert a + b == a;
    } else {
      var front, last := b[..|b| - 1], [b[|b| - 1]];
      assert b == front + last && a + b == (a + front) + last;
      LookupNameConcat(a, front, name);
      LookupNameAppend(a + front, last, name);
      LookupNameAppend(front, last, name);
    }
  }

  /** What node n gains with the file after `front`: a container of it if it is split. */
  predicate GainsSplit(gain: FileStore, ring: nat, front: seq<File>, last: File) {
    if !IsSplit(ring, last) then gain == []
    else |gain| == 1 && gain[0].fileId == |front| + 1 && Describes(gain[0], front + [last], ring)
  }

  lemma FarGains(ring: nat, front: seq<File>, last: File, n: nat)
    requires Far(ring, n)
    ensures GainsSplit(Gain(ring, last, |front| + 1, n), ring, front, last)
  {
    GainIds(ring, last, |front| + 1, n);
    FarGain(ring, last, |front| + 1, n);
  }

  lemma FindsStill(r: Option<Container>, ring: nat, front: seq<File>, last: File, g: Option<nat>)
    requires FindsFile(r, ring, front, g)
    ensures FindsFile(r, ring, front + [last], g)
  {
  }

  lemma FindsOneMore(store: FileStore, gain: FileStore, ring: nat, front: seq<File>, last: File, name: string)
    requires GainsSplit(gain, ring, front, last)
    requires FindsFile(LookupName(store, Stem(name)), ring, front, FirstSplitNamed(ring, front, name))
    ensures FindsFile(LookupName(store + gain, Stem(name)), ring, front + [last],
                      FirstSplitNamed(ring, front + [last], name))
  {
    LookupNameAppend(store, gain, Stem(name));
    FirstSplitNamedLast(ring, front, last, name);
    FindsStill(LookupName(store, Stem(name)), ring, front, last, FirstSplitNamed(ring, front, name));
  }

  /** On the far nodes a name finds the first split file that has it. */
  lemma {:induction false} NameOnFarNode(ring: nat, files: seq<File>, n: nat, name: string)
    requires Far(ring, n)
    ensures FindsFile(LookupName(StoreOf(ring, files, n), Stem(name)), ring, files, FirstSplitNamed(ring, files, name))
  {
    if files != [] {
      var front, last := files[..|files| - 1], files[|files| - 1];
      FrontLast(files);
      NameOnFarNode(ring, front, n, name);
      FarGains(ring, front, last, n);
      FindsOneMore(StoreOf(ring, front, n), Gain(ring, last, |files|, n), ring, front, last, name);
    }
  }

  /** What is found among the unsplit files. */
  function WholeFinds(ring: nat, files: seq<File>, g: Option<nat>): Option<Container>
    requires g.Some? ==> g.value < |files|
  {
    match g
    case None => None
    case Some(i) => Some(Fresh(MetaFor(files[i], i + 1, ring)))
  }

  lemma {:induction false} NameAmongWholes(ring: nat, files: seq<File>, name: string)
    requires FirstSplitNamed(ring, files, name).None?
    ensures LookupName(Wholes(ring, files), Stem(name)) == WholeFinds(ring, files, FirstNamed(files, name))
  {
    if files != [] {
      var front, last := files[..|files| - 1], files[|files| - 1];
      FrontLast(files);
      FirstSplitNamedLast(ring, front, last, name);
      NameAmongWholes(ring, front, name);
      FirstNamedLast(front, last, name);
      WholesLast(ring, front, last);
      LookupNameAppend(Wholes(ring, front), if IsSplit(ring, last) then [] else [Fresh(MetaFor(last, |files|, ring))],
                       Stem(name));
    }
  }

  lemma WholesFind(ring: nat, files: seq<File>, name: string)
    ensures FirstSplitNamed(ring, files, name).None? ==>
              FindsFile(LookupName(Wholes(ring, files), Stem(name)), ring, files, FirstNamed(files, name))
  {
    if FirstSplitNamed(ring, files, name).None? {
      NameAmongWholes(ring, files, name);
    }
  }

  lemma ConcatFinds(own: FileStore, wholes: FileStore, name: string, ring: nat, files: seq<File>, g: Option<nat>,
                    h: Option<nat>)
    ensures FindsFile(LookupName(own, name), ring, files, g)
            && (g.None? ==> FindsFile(LookupName(wholes, name), ring, files, h)) ==>
              FindsFile(LookupName(own + wholes, name), ring, files, if g.Some? then g else h)
  {
    LookupNameConcat(own, wholes, name);
  }

  /** A name finds the first split file that has it in the complete inheritance, or else the first file. */
  lemma InheritedName(ring: nat, files: seq<File>, name: string)
    requires ring >= 4
    ensures FindsFile(LookupName(Inheritance(ring, files, |files|), Stem(name)), ring, files,
                      Inheritor(ring, files, name))
  {
    assert Upto(files, |files|) == files;
    NameOnFarNode(ring, files, ring - 1, name);
    WholesFind(ring, files, name);
    ConcatFinds(StoreOf(ring, files, ring - 1), Wholes(ring, files), Stem(name), ring, files,
                FirstSplitNamed(ring, files, name), FirstNamed(files, name));
  }
}
