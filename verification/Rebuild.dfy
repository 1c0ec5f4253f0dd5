/** xprocedure_save_file_to_index: a new index rebuilds placement tables from what each surviving node
    reports about its own two slots, using nothing but fragment ids and slot order. */
module Rebuild {
  import opened Types
  import opened Storage
  import opened Layout

  /** One report: a node's two slots of one file, as table entries. */
  datatype Report = Report(m: Meta, r0: Pointer, r1: Pointer)

  function Reported(s: Slot, node: nat): Pointer {
    if s.id != 0 then Pointer(s.id, |s.data|, node) else BLANK
  }

  /** What a node sends for one of its containers. */
  function ReportOf(c: Container, node: nat): Report {
    Report(Meta(c.name, c.fileId, c.size, c.total), Reported(c.s0, node), Reported(c.s1, node))
  }

  /** The report's writes stay inside the table. */
  predicate WritesInBounds(table: seq<Pointer>, r0: Pointer, r1: Pointer) {
    && |table| >= 2 && |table| % 2 == 0
    && (|table| == 2
        || r1.fragment > r0.fragment + 1
        || (|table| == 4 && table[0].fragment == 0)
        || 2 <= r1.fragment <= |table| / 2)
  }

  /** The table after one report. */
  function ApplyReport(table: seq<Pointer>, r0: Pointer, r1: Pointer): (r: seq<Pointer>)
    requires WritesInBounds(table, r0, r1)
    ensures |r| == |table|
  {
    if |table| == 2 then
      if table[0].fragment == 0 then table[0 := r0]
      else if table[0].node < r0.node then table[1 := r0]
      else [r0, table[0]]
    else if r1.fragment > r0.fragment + 1 || (|table| == 4 && table[0].fragment == 0) then
      table[0 := r0][|table| - 1 := r1]
    else
      var place := 2 * (r1.fragment - 1);
      table[place - 1 := r0][place := r1]
  }

  /** The same, as the in-place updates of the code. */
  method SaveReport(table: array<Pointer>, count: nat, r0: Pointer, r1: Pointer)
    requires table.Length == 2 * count
    requires WritesInBounds(table[..], r0, r1)
    modifies table
    ensures table[..] == ApplyReport(old(table[..]), r0, r1)
  {
    var diff := r1.fragment - r0.fragment;
    if count == 1 {
      if table[0].fragment != 0 {
        if table[0].node < r0.node {
          table[1] := r0;
        } else {
          table[1] := table[0];
          table[0] := r0;
        }
      } else {
        table[0] := r0;
      }
    } else if diff > 1 {
      table[0] := r0;
      table[2 * count - 1] := r1;
    } else if count == 2 && table[0].fragment == 0 {
      table[0] := r0;
      table[2 * count - 1] := r1;
    } else {
      var place := (r1.fragment - 1) * 2;
      table[place - 1] := r0;
      table[place] := r1;
    }
  }

  function Blanks(n: nat): (s: seq<Pointer>)
    ensures |s| == n && forall p :: 0 <= p < n ==> s[p] == BLANK
  {
    seq(n, _ => BLANK)
  }

  // ---------------------------------------------------------------- three fragments or more

  /** The report of the j-th node of a file split over a list of nodes, in terms of the original table. */
  lemma ReportIsOwnEntries(live: seq<nat>, pieces: seq<seq<byte>>, m: Meta, j: nat)
    requires |pieces| == |live| >= 2 && Distinct(live) && j < |live|
    ensures var table := FileTable(live, pieces);
            var c := WithSlots(m, Held(table, pieces, live[j]));
            ReportOf(c, live[j]) ==
            Report(m, table[FirstPosition(|live|, j)], table[SecondPosition(|live|, j)])
  {
    var table := FileTable(live, pieces);
    var a, b := FirstPosition(|live|, j), SecondPosition(|live|, j);
    SplitPositions(live, pieces, j);
    HeldTwo(table, pieces, live[j], a, b);
    assert GoodPointer(table[a], pieces) && GoodPointer(table[b], pieces);
  }

  /** Applying the report of one holder restores exactly that holder's entries. */
  lemma ReportRestoresOwn(live: seq<nat>, pieces: seq<seq<byte>>, j: nat, table: seq<Pointer>)
    requires |pieces| == |live| >= 3 && Distinct(live) && j < |live| && |table| == 2 * |live|
    ensures var original := FileTable(live, pieces);
            var r0, r1 := original[FirstPosition(|live|, j)], original[SecondPosition(|live|, j)];
            && WritesInBounds(table, r0, r1)
            && forall p: nat :: p < |table| ==>
                 ApplyReport(table, r0, r1)[p] == if original[p].node == live[j] then original[p] else table[p]
  {
    var original := FileTable(live, pieces);
    FileTableAt(live, pieces, FirstPosition(|live|, j));
    FileTableAt(live, pieces, SecondPosition(|live|, j));
    var r0, r1 := original[FirstPosition(|live|, j)], original[SecondPosition(|live|, j)];
    forall p: nat | p < |table|
      ensures ApplyReport(table, r0, r1)[p] == if original[p].node == live[j] then original[p] else table[p]
    {
      PositionsOf(live, pieces, j, p);
    }
  }

  /** Processing the reports of the nodes at the listed positions, in that order. */
  function Processed(live: seq<nat>, pieces: seq<seq<byte>>, order: seq<nat>): (table: seq<Pointer>)
    requires |pieces| == |live| >= 3 && Distinct(live)
    requires forall k :: 0 <= k < |order| ==> order[k] < |live|
    ensures |table| == 2 * |live|
  {
    if order == [] then Blanks(2 * |live|)
    else
      var j := order[|order| - 1];
      var original := FileTable(live, pieces);
      var before := Processed(live, pieces, order[..|order| - 1]);
      ReportRestoresOwn(live, pieces, j, before);
      ApplyReport(before, original[FirstPosition(|live|, j)], original[SecondPosition(|live|, j)])
  }

  /** One more report. */
  lemma ProcessedLast(live: seq<nat>, pieces: seq<seq<byte>>, order: seq<nat>, j: nat)
    requires |pieces| == |live| >= 3 && Distinct(live) && j < |live|
    requires forall k :: 0 <= k < |order| ==> order[k] < |live|
    ensures var original := FileTable(live, pieces);
            var r0, r1 := original[FirstPosition(|live|, j)], original[SecondPosition(|live|, j)];
            && WritesInBounds(Processed(live, pieces, order), r0, r1)
            && Processed(live, pieces, order + [j]) == ApplyReport(Processed(live, pieces, order), r0, r1)
  {
    assert (order + [j])[..|order + [j]| - 1] == order;
    ReportRestoresOwn(live, pieces, j, Processed(live, pieces, order));
  }

  /** Node n is among the reporters. */
  predicate HasReported(live: seq<nat>, order: seq<nat>, n: nat)
    requires forall k :: 0 <= k < |order| ==> order[k] < |live|
  {
    exists k :: 0 <= k < |order| && live[order[k]] == n
  }

  lemma HasReportedLast(live: seq<nat>, order: seq<nat>, n: nat)
    requires order != [] && forall k :: 0 <= k < |order| ==> order[k] < |live|
    ensures HasReported(live, order, n) <==>
            HasReported(live, order[..|order| - 1], n) || live[order[|order| - 1]] == n
  {
    var front := order[..|order| - 1];
    assert forall k :: 0 <= k < |front| ==> front[k] == order[k];
    if HasReported(live, front, n) {
      var k :| 0 <= k < |front| && live[front[k]] == n;
      assert live[order[k]] == n;
    }
  }

  /** Rebuild refines placement: whichever holders have reported, in whatever order and however often,
      a table position equals the entry originally placed there if its holder is among them, and is
      blank otherwise. */
  lemma {:induction false} RebuildRefinesPlacement(live: seq<nat>, pieces: seq<seq<byte>>, order: seq<nat>, p: nat)
    requires |pieces| == |live| >= 3 && Distinct(live) && p < 2 * |live|
    requires forall k :: 0 <= k < |order| ==> order[k] < |live|
    ensures var original := FileTable(live, pieces);
            Processed(live, pieces, order)[p] ==
            if HasReported(live, order, original[p].node) then original[p] else BLANK
  {
    if order != [] {
      var front := order[..|order| - 1];
      RebuildRefinesPlacement(live, pieces, front, p);
      ReportRestoresOwn(live, pieces, order[|order| - 1], Processed(live, pieces, front));
      HasReportedLast(live, order, FileTable(live, pieces)[p].node);
    }
  }

  /** Reports may be repeated and reordered freely: only the set of reporters matters. */
  lemma RebuildIgnoresOrder(live: seq<nat>, pieces: seq<seq<byte>>, order: seq<nat>, order': seq<nat>)
    requires |pieces| == |live| >= 3 && Distinct(live)
    requires forall k :: 0 <= k < |order| ==> order[k] < |live|
    requires forall k :: 0 <= k < |order'| ==> order'[k] < |live|
    requires forall j :: j in order <==> j in order'
    ensures Processed(live, pieces, order) == Processed(live, pieces, order')
  {
    forall p: nat | p < 2 * |live|
      ensures Processed(live, pieces, order)[p] == Processed(live, pieces, order')[p]
    {
      var n := FileTable(live, pieces)[p].node;
      RebuildRefinesPlacement(live, pieces, order, p);
      RebuildRefinesPlacement(live, pieces, order', p);
      if HasReported(live, order, n) {
        var k :| 0 <= k < |order| && live[order[k]] == n;
        assert order[k] in order';
      }
      if HasReported(live, order', n) {
        var k :| 0 <= k < |order'| && live[order'[k]] == n;
        assert order'[k] in order;
      }
    }
  }

  // ---------------------------------------------------------------- one and two fragments

  /** Two fragments on two nodes: whichever reports first, all four positions are filled, and positions
      2i and 2i + 1 hold fragment i + 1 on two different nodes. The first reporter takes the outer ones. */
  lemma RebuildTwoFragments(a: nat, b: nat, s1: nat, s2: nat)
    requires a != b
    ensures var first := ApplyReport(Blanks(4), Pointer(1, s1, a), Pointer(2, s2, a));
            && WritesInBounds(first, Pointer(1, s1, b), Pointer(2, s2, b))
            && ApplyReport(first, Pointer(1, s1, b), Pointer(2, s2, b)) ==
               [Pointer(1, s1, a), Pointer(1, s1, b), Pointer(2, s2, b), Pointer(2, s2, a)]
  {
    var first := ApplyReport(Blanks(4), Pointer(1, s1, a), Pointer(2, s2, a));
    assert first == [Pointer(1, s1, a), BLANK, BLANK, Pointer(2, s2, a)];
  }

  /** An unsplit file on two nodes: either order of the reports gives the table sorted by node id. */
  lemma RebuildOneFragment(a: nat, b: nat, size: nat, r: Pointer, r': Pointer)
    requires a < b
    ensures ApplyReport(ApplyReport(Blanks(2), Pointer(1, size, a), r), Pointer(1, size, b), r') ==
            [Pointer(1, size, a), Pointer(1, size, b)]
    ensures ApplyReport(ApplyReport(Blanks(2), Pointer(1, size, b), r), Pointer(1, size, a), r') ==
            [Pointer(1, size, a), Pointer(1, size, b)]
  {
    assert ApplyReport(Blanks(2), Pointer(1, size, a), r) == [Pointer(1, size, a), BLANK];
    assert ApplyReport(Blanks(2), Pointer(1, size, b), r) == [Pointer(1, size, b), BLANK];
  }

  /** Below three fragments a repeated report is not harmless: the second copy of the same node's report
      takes the place of the other replica, so the file looks replicated on one node only. */
  lemma RepeatedReportIsNotHarmless(a: nat, size: nat)
    ensures var once := ApplyReport(Blanks(2), Pointer(1, size, a), BLANK);
            ApplyReport(once, Pointer(1, size, a), BLANK) == [Pointer(1, size, a), Pointer(1, size, a)] != once
    ensures var once := ApplyReport(Blanks(4), Pointer(1, size, a), Pointer(2, size, a));
            && WritesInBounds(once, Pointer(1, size, a), Pointer(2, size, a))
            && ApplyReport(once, Pointer(1, size, a), Pointer(2, size, a)) != once
  {
    var once := ApplyReport(Blanks(2), Pointer(1, size, a), BLANK);
    assert once == [Pointer(1, size, a), BLANK];
    var twice := ApplyReport(Blanks(4), Pointer(1, size, a), Pointer(2, size, a));
    assert twice == [Pointer(1, size, a), BLANK, BLANK, Pointer(2, size, a)];
    assert ApplyReport(twice, Pointer(1, size, a), Pointer(2, size, a))[1] == Pointer(1, size, a);
  }
}
