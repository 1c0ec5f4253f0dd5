/** Names are no keys: exactly when the loss of the index changes the answer to a get. */
module WorldNames {
  import opened Types
  import opened Cluster
  import opened PutPhase
  import opened Heritage
  import opened TakeoverGet
  import opened World
  import opened WorldTheorems
  import Ring
  import RingRuns

  /** The first file of the name is not split, but a later one is. */
  ghost predicate Shadowed(ring: nat, files: seq<File>, name: string) {
    exists g: nat, h: nat ::
      && FirstOfName(files, g, name) && !IsSplit(ring, files[g])
      && h < |files| && HasName(files[h], name) && IsSplit(ring, files[h])
  }

  /** A split file and an unsplit one differ in size. */
  lemma SplitDiffers(ring: nat, f: File, g: File)
    requires !IsSplit(ring, f) && IsSplit(ring, g)
    ensures f.data != g.data
  {
  }

  lemma {:induction false} InheritorIsFirst(ring: nat, files: seq<File>, name: string)
    requires !Shadowed(ring, files, name)
    ensures Inheritor(ring, files, name) == FirstNamed(files, name)
  {
    var h, g := FirstSplitNamed(ring, files, name), FirstNamed(files, name);
    if h.Some? && g.Some? {
      assert FirstOfName(files, g.value, name) && HasName(files[h.value], name);
    }
  }

  lemma {:induction false} InheritorIsSplit(ring: nat, files: seq<File>, name: string)
    requires Shadowed(ring, files, name)
    ensures var g, h := FirstNamed(files, name), Inheritor(ring, files, name);
            && g.Some? && h.Some? && g.value < |files| && h.value < |files|
            && files[g.value].data != files[h.value].data
  {
    var g: nat, h: nat :|
      && FirstOfName(files, g, name) && !IsSplit(ring, files[g])
      && h < |files| && HasName(files[h], name) && IsSplit(ring, files[h]);
    assert FirstNamed(files, name) == Some(g);
    assert FirstSplitNamed(ring, files, name).Some?;
    SplitDiffers(ring, files[g], files[Inheritor(ring, files, name).value]);
  }

  /** With the same files stored, a get of a name gives the same answer before the index is lost and after its
      succession, unless the first file of the name is unsplit and a later one is split. */
  lemma AnswersAgreeIff(w: World, w': World, name: string)
    requires w.net.size == w'.net.size >= 1 && w.files == w'.files && w.net.dead == 0 && w'.net.dead == w'.net.size
    ensures Answer(w, name) == Answer(w', name) <==> !Shadowed(w.net.size, w.files, name)
  {
    if Shadowed(w.net.size, w.files, name) {
      InheritorIsSplit(w.net.size, w.files, name);
    } else {
      InheritorIsFirst(w.net.size, w.files, name);
    }
  }

  // ---------------------------------------------------------------- it happens

  lemma HistoryCons(w: World, e: Event, events: seq<Event>)
    requires Possible(w, e) && IsHistory(Happen(w, e), events)
    ensures IsHistory(w, [e] + events) && Same(AfterAll(w, [e] + events), AfterAll(Happen(w, e), events))
  {
    Cons(e, events);
  }

  lemma IndexDies(ring: nat, w: World)
    requires ring >= 4 && Attainable(ring, w) && RingRuns.Settled(w.net) && w.net.dead == 0 && w.net.size == ring
    ensures Possible(w, Protocol(Ring.Die(ring))) && Attainable(ring, Happen(w, Protocol(Ring.Die(ring))))
    ensures var w' := Happen(w, Protocol(Ring.Die(ring)));
            w'.net.dead == ring && w'.net.size == ring && w'.files == w.files
  {
    AttainableNext(ring, w, Protocol(Ring.Die(ring)));
  }

  lemma RestAfter(ring: nat, w: World, e: Event) returns (events: seq<Event>)
    requires ring >= 2 && Attainable(ring, w) && Possible(w, e) && Attainable(ring, Happen(w, e))
    ensures IsHistory(w, events) && Attainable(ring, AfterAll(w, events))
    ensures var w', w'' := Happen(w, e), AfterAll(w, events);
            RingRuns.Settled(w''.net) && w''.net.size == ring && w''.net.dead == w'.net.dead && w''.files == w'.files
  {
    var rest := EveryHistoryComesToRest(ring, Happen(w, e));
    events := [e] + rest;
    HistoryCons(w, e, rest);
    AttainableThen(ring, w, events);
    var a, stored := AttainableSound(ring, AfterAll(w, events));
  }

  /** The index dies, and the ring comes to rest again. */
  lemma IndexLost(ring: nat, w: World) returns (events: seq<Event>)
    requires ring >= 4 && Attainable(ring, w) && RingRuns.Settled(w.net) && w.net.dead == 0 && w.net.size == ring
    ensures IsHistory(w, events) && Attainable(ring, AfterAll(w, events))
    ensures var w' := AfterAll(w, events);
            RingRuns.Settled(w'.net) && w'.net.size == ring && w'.net.dead == ring && w'.files == w.files
  {
    IndexDies(ring, w);
    events := RestAfter(ring, w, Protocol(Ring.Die(ring)));
  }

  lemma StoredAnother(ring: nat, w: World, g: File) returns (w': World)
    requires 2 <= ring <= 255 && Attainable(ring, w) && RingRuns.Settled(w.net) && w.net.size == ring
    requires w.net.dead == 0 && |w.files| < MAX_FILES && View(w.net).netSize == ring
    requires Storable(g) && Transferable(ring, g)
    ensures Attainable(ring, w') && w'.net == w.net && w'.files == w.files + [g]
  {
    EveryFileCanBeStored(ring, w, g);
    w' := StoredNext(ring, w, g);
  }

  lemma TwoStored(ring: nat, f: File, g: File) returns (w: World)
    requires 2 <= ring <= 255 && Storable(f) && Transferable(ring, f) && Storable(g) && Transferable(ring, g)
    ensures Attainable(ring, w) && RingRuns.Settled(w.net) && w.net.size == ring && w.net.dead == 0
    ensures w.files == [f, g]
  {
    var w1 := OneStored(ring, f);
    w := StoredAnother(ring, w1, g);
  }

  lemma TwoOfOneName(ring: nat, f: File, g: File)
    requires HasName(g, f.name) && !IsSplit(ring, f) && IsSplit(ring, g)
    ensures FirstNamed([f, g], f.name) == Some(0) && Inheritor(ring, [f, g], f.name) == Some(1)
  {
    SecondInherits(ring, [f, g]);
  }

  /** The answer does change, in every ring of at least four nodes: a file that is not split and then one of the same
      name that is are stored, and the first comes back; the index dies, the ring comes to rest, and the second comes
      back. */
  lemma AnswerChanges(ring: nat, f: File, g: File) returns (w: World, events: seq<Event>)
    requires 4 <= ring <= 255 && Storable(f) && Transferable(ring, f) && Storable(g) && Transferable(ring, g)
    requires HasName(g, f.name) && !IsSplit(ring, f) && IsSplit(ring, g)
    ensures Attainable(ring, w) && RingRuns.Settled(w.net) && w.net.size == ring && w.files == [f, g]
    ensures IsHistory(w, events) && Attainable(ring, AfterAll(w, events))
    ensures var w' := AfterAll(w, events);
            && RingRuns.Settled(w'.net) && w'.net.size == ring && w'.files == [f, g]
            && Answer(w, f.name) == Returned(f.data) && Answer(w', f.name) == Returned(g.data)
  {
    w := TwoStored(ring, f, g);
    events := IndexLost(ring, w);
    TwoOfOneName(ring, f, g);
  }
}
