/** Loading: fill the missing amounts, derive the usage column, drop the rows
    without an OPD limit and add the usage percentage (app.py, load_data). */
module Loader {
  import opened Table
  import opened Frames

  /** `fillna(0)` on one cell. */
  function OrZero(x: Option<real>): real {
    match x
    case Some(v) => v
    case None => 0.0
  }

  /** `fillna(0)` on a column: present cells are kept and missing ones become 0. */
  function FillZero(c: seq<Option<real>>): (r: seq<Option<real>>)
    ensures |r| == |c| && NoMissing(r)
    ensures forall i :: 0 <= i < |c| && c[i].Some? ==> r[i] == c[i]
    ensures forall i :: 0 <= i < |c| && c[i].None? ==> r[i] == Some(0.0)
  {
    seq(|c|, i requires 0 <= i < |c| => Some(OrZero(c[i])))
  }

  /** `mrp + refund` on two filled columns. */
  function AddColumns(m: seq<Option<real>>, rf: seq<Option<real>>): (u: seq<real>)
    requires |rf| == |m| && NoMissing(m) && NoMissing(rf)
    ensures |u| == |m|
    ensures forall i :: 0 <= i < |m| ==> u[i] == m[i].value + rf[i].value
  {
    seq(|m|, i requires 0 <= i < |m| => assert m[i] in m && rf[i] in rf; m[i].value + rf[i].value)
  }

  /** The mask `limit != 0`. */
  function NonZero(l: seq<real>): (keep: seq<bool>)
    ensures |keep| == |l|
    ensures forall i :: 0 <= i < |l| ==> (keep[i] <==> l[i] != 0.0)
  {
    seq(|l|, i requires 0 <= i < |l| => l[i] != 0.0)
  }

  /** One row after the amounts are filled and the usage is derived: a missing
      amount reads as 0, a present one is kept, and the usage is their sum. */
  function Derive(r: RawRecord): (d: Record)
    ensures d.profile == r.profile && d.limit == r.limit
    ensures r.mrp.None? ==> d.mrp == 0.0
    ensures r.mrp.Some? ==> d.mrp == r.mrp.value
    ensures r.refund.None? ==> d.refund == 0.0
    ensures r.refund.Some? ==> d.refund == r.refund.value
    ensures UsageSplits(d)
  {
    var m, rf := OrZero(r.mrp), OrZero(r.refund);
    Record(r.profile, m, rf, r.limit, m + rf)
  }

  function Derived(raw: seq<RawRecord>): (rows: seq<Record>)
    ensures |rows| == |raw|
  {
    seq(|raw|, i requires 0 <= i < |raw| => Derive(raw[i]))
  }

  /** The loaded table: the derived rows whose OPD limit is not 0. */
  function Clean(raw: seq<RawRecord>): (rows: seq<Record>)
    ensures forall r :: r in rows ==> r.limit != 0.0
    ensures forall r :: r in rows ==> UsageSplits(r)
  {
    if raw == [] then []
    else
      var last := raw[|raw| - 1];
      Clean(raw[..|raw| - 1]) + (if last.limit != 0.0 then [Derive(last)] else [])
  }

  /** The positions of the rows with a nonzero OPD limit, in increasing order. */
  function KeptIndices(raw: seq<RawRecord>): (idx: seq<nat>)
    ensures forall j :: 0 <= j < |idx| ==> idx[j] < |raw|
    ensures forall j, k :: 0 <= j < k < |idx| ==> idx[j] < idx[k]
    ensures forall i :: 0 <= i < |raw| ==> (i in idx <==> raw[i].limit != 0.0)
  {
    TrueIndices(NonZero(LimitColumn(raw)))
  }

  /** The "Sum of OPD Limit" column of the input rows. */
  function LimitColumn(raw: seq<RawRecord>): (l: seq<real>)
    ensures |l| == |raw|
  {
    seq(|raw|, i requires 0 <= i < |raw| => raw[i].limit)
  }

  /** The loaded table holds exactly the rows with a nonzero limit, in their
      original order, each derived from its input row and otherwise unchanged. */
  lemma CleanKeepsNonzeroRowsInOrder(raw: seq<RawRecord>)
    ensures |Clean(raw)| == |KeptIndices(raw)|
    ensures forall j :: 0 <= j < |Clean(raw)| ==> Clean(raw)[j] == Derive(raw[KeptIndices(raw)[j]])
  {
    var keep := NonZero(LimitColumn(raw));
    WhereNonZeroIsClean(raw, keep);
    WhereAtTrueIndices(Derived(raw), keep);
  }

  /** Masking the derived rows with `limit != 0` gives the loaded table. */
  lemma {:induction false} WhereNonZeroIsClean(raw: seq<RawRecord>, keep: seq<bool>)
    requires |keep| == |raw|
    requires forall i :: 0 <= i < |raw| ==> (keep[i] <==> raw[i].limit != 0.0)
    ensures Where(Derived(raw), keep) == Clean(raw)
  {
    if raw != [] {
      var n := |raw| - 1;
      WhereNonZeroIsClean(raw[..n], keep[..n]);
      assert Derived(raw)[..n] == Derived(raw[..n]);
    }
  }

  /** Filling both amount columns and adding their sum turns every input row
      into its derived row. */
  lemma FilledColumnsAreDerived(raw: seq<RawRecord>, p: seq<Profile>, m: seq<Option<real>>, rf: seq<Option<real>>, l: seq<real>)
    requires |p| == |raw| && |m| == |raw| && |rf| == |raw| && |l| == |raw|
    requires forall i :: 0 <= i < |raw| ==> raw[i] == RawRecord(p[i], m[i], rf[i], l[i])
    ensures Zip(p, FillZero(m), FillZero(rf), l, AddColumns(FillZero(m), FillZero(rf))) == Derived(raw)
  {
    var fm, frf := FillZero(m), FillZero(rf);
    var rows := Zip(p, fm, frf, l, AddColumns(fm, frf));
    forall i | 0 <= i < |raw|
      ensures rows[i] == Derived(raw)[i]
    {
      assert fm[i].value == OrZero(m[i]) && frf[i].value == OrZero(rf[i]);
    }
  }

  /** "Opd Perc" of one row: the rounded percentage when something was used,
      otherwise 0; `round1` stands for rounding to one decimal. */
  function OpdPerc(used: real, limit: real, round1: real -> real): (p: real)
    requires limit != 0.0
    ensures used <= 0.0 ==> p == 0.0
  {
    if used > 0.0 then round1(used / limit * 100.0) else 0.0
  }

  function OpdPercColumn(rows: seq<Record>, round1: real -> real): (c: seq<real>)
    requires forall r :: r in rows ==> r.limit != 0.0
    ensures |c| == |rows|
    ensures forall i :: 0 <= i < |rows| && rows[i].totalUsed <= 0.0 ==> c[i] == 0.0
  {
    seq(|rows|, i requires 0 <= i < |rows| => assert rows[i] in rows; OpdPerc(rows[i].totalUsed, rows[i].limit, round1))
  }

  /** Lines 69-72 of load_data on the caller's frame: fill both amount
      columns with 0 and add the usage column. */
  method FillAndDerive(file: Frame)
    requires file.Valid()
    modifies file
    ensures file.Cleaned() && file.Records() == Derived(old(file.Raw()))
    ensures file.profile == old(file.profile) && file.limit == old(file.limit)
    ensures file.opdPerc == old(file.opdPerc)
  {
    FilledColumnsAreDerived(file.Raw(), file.profile, file.mrp, file.refund, file.limit);
    file.mrp := FillZero(file.mrp);
    file.refund := FillZero(file.refund);
    file.totalUsed := Some(AddColumns(file.mrp, file.refund));
  }

  /** Lines 76-80 of load_data: add the "Opd Perc" column to the loaded copy. */
  method AddOpdPerc(data: Frame, round1: real -> real)
    requires data.Cleaned()
    requires forall r :: r in data.Records() ==> r.limit != 0.0
    modifies data
    ensures data.Cleaned() && data.Records() == old(data.Records())
    ensures data.opdPerc == Some(OpdPercColumn(data.Records(), round1))
  {
    var rows := data.Records();
    data.opdPerc := Some(OpdPercColumn(rows, round1));
    assert data.Records() == rows;
  }

  /** load_data: the caller's frame gets its amounts filled and the usage
      column added in place; the result is a fresh frame with the rows whose
      limit is not 0, to which the percentage column is added. */
  method LoadData(file: Frame, round1: real -> real) returns (data: Frame)
    requires file.Valid()
    modifies file
    ensures file.Cleaned() && file.Records() == Derived(old(file.Raw()))
    ensures file.opdPerc == old(file.opdPerc)
    ensures fresh(data) && data.Cleaned()
    ensures data.Records() == Clean(old(file.Raw()))
    ensures data.opdPerc == Some(OpdPercColumn(data.Records(), round1))
  {
    ghost var raw := file.Raw();
    FillAndDerive(file);
    var keep := NonZero(file.limit);
    WhereNonZeroIsClean(raw, keep);
    data := file.Select(keep);
    AddOpdPerc(data, round1);
  }
}
