/** The five-dimension filter of process_data and the "select all" defaults
    built in main (app.py). */
module Filtering {
  import opened Table
  import opened Frames

  /** The chosen values of each filter dimension. */
  datatype Selection = Selection(
    renTypes: set<string>,
    policyYears: set<int>,
    planTypes: set<string>,
    familyStructures: set<string>,
    ageBands: set<string>
  )

  /** A row passes when each of its five dimensions is among the chosen values. */
  predicate Matches(r: Record, sel: Selection) {
    && r.profile.renType in sel.renTypes
    && r.profile.policyYear in sel.policyYears
    && r.profile.planType in sel.planTypes
    && r.profile.familyStructure in sel.familyStructures
    && r.profile.ageBand in sel.ageBands
  }

  /** Keeps the matching rows, in table order. */
  function Filter(rows: seq<Record>, sel: Selection): (kept: seq<Record>)
    ensures |kept| <= |rows|
    ensures forall i :: 0 <= i < |kept| ==> Matches(kept[i], sel)
  {
    if rows == [] then []
    else
      var n := |rows| - 1;
      Filter(rows[..n], sel) + (if Matches(rows[n], sel) then [rows[n]] else [])
  }

  /** A row is kept exactly when it is in the table and matches. */
  lemma {:induction false} FilterMembership(rows: seq<Record>, sel: Selection)
    ensures forall r :: r in Filter(rows, sel) <==> r in rows && Matches(r, sel)
  {
    if rows != [] {
      var n := |rows| - 1;
      FilterMembership(rows[..n], sel);
      assert rows == rows[..n] + [rows[n]];
    }
  }

  /** The boolean mask of the `isin` conjunction, one entry per row. */
  function MatchMask(rows: seq<Record>, sel: Selection): (keep: seq<bool>)
    ensures |keep| == |rows|
    ensures forall i :: 0 <= i < |rows| ==> (keep[i] <==> Matches(rows[i], sel))
  {
    seq(|rows|, i requires 0 <= i < |rows| => Matches(rows[i], sel))
  }

  /** Filtering is boolean indexing with the mask of the five `isin` tests. */
  lemma {:induction false} FilterIsWhere(rows: seq<Record>, sel: Selection)
    ensures Filter(rows, sel) == Where(rows, MatchMask(rows, sel))
  {
    if rows != [] {
      var n := |rows| - 1;
      FilterIsWhere(rows[..n], sel);
      assert MatchMask(rows, sel)[..n] == MatchMask(rows[..n], sel);
    }
  }

  /** The filter keeps exactly the matching rows, at their positions in
      increasing order. */
  lemma FilterInOrder(rows: seq<Record>, sel: Selection)
    ensures |Filter(rows, sel)| == |TrueIndices(MatchMask(rows, sel))|
    ensures forall j :: 0 <= j < |Filter(rows, sel)| ==>
      Filter(rows, sel)[j] == rows[TrueIndices(MatchMask(rows, sel))[j]]
  {
    FilterIsWhere(rows, sel);
    WhereAtTrueIndices(rows, MatchMask(rows, sel));
  }

  /** Each matching row is kept as often as it occurs in the table. */
  lemma {:induction false} FilterKeepsMultiplicity(rows: seq<Record>, sel: Selection, r: Record)
    ensures multiset(Filter(rows, sel))[r] == if Matches(r, sel) then multiset(rows)[r] else 0
  {
    if rows != [] {
      var n := |rows| - 1;
      FilterKeepsMultiplicity(rows[..n], sel, r);
      assert rows == rows[..n] + [rows[n]];
      assert multiset(rows) == multiset(rows[..n]) + multiset{rows[n]};
    }
  }

  /** Rows that all match are returned unchanged and in order. */
  lemma {:induction false} FilterKeepsMatchingRows(rows: seq<Record>, sel: Selection)
    requires forall i :: 0 <= i < |rows| ==> Matches(rows[i], sel)
    ensures Filter(rows, sel) == rows
  {
    if rows != [] {
      var n := |rows| - 1;
      var front := rows[..n];
      FilterKeepsMatchingRows(front, sel);
      assert Filter(rows, sel) == Filter(front, sel) + [rows[n]];
      assert rows == front + [rows[n]];
    }
  }

  /** An empty choice in any dimension keeps no row. */
  lemma EmptyChoiceKeepsNothing(rows: seq<Record>, sel: Selection)
    requires sel.renTypes == {} || sel.policyYears == {} || sel.planTypes == {}
          || sel.familyStructures == {} || sel.ageBands == {}
    ensures Filter(rows, sel) == []
  {
  }

  /** The default of every multiselect: all distinct values of its column. */
  function DefaultSelection(rows: seq<Record>): (sel: Selection)
    ensures forall r :: r in rows ==> Matches(r, sel)
  {
    Selection(
      set r | r in rows :: r.profile.renType,
      set r | r in rows :: r.profile.policyYear,
      set r | r in rows :: r.profile.planType,
      set r | r in rows :: r.profile.familyStructure,
      set r | r in rows :: r.profile.ageBand)
  }

  /** With the defaults the filter returns the loaded table unchanged. */
  lemma DefaultSelectionKeepsAll(rows: seq<Record>)
    ensures Filter(rows, DefaultSelection(rows)) == rows
  {
    var sel := DefaultSelection(rows);
    forall i | 0 <= i < |rows| ensures Matches(rows[i], sel) {
      assert rows[i] in rows;
    }
    FilterKeepsMatchingRows(rows, sel);
  }
}
