/** A dataframe held column by column, as the loader mutates it: columns are
    overwritten and added in place, and a boolean mask selects a new frame. */
module Frames {
  import opened Table

  /** A numeric column with no missing cell. */
  predicate NoMissing(c: seq<Option<real>>) {
    None !in c
  }

  /** The number of rows a boolean mask selects. */
  function Selected(keep: seq<bool>): (n: nat)
    ensures n <= |keep|
  {
    if keep == [] then 0
    else Selected(keep[..|keep| - 1]) + (if keep[|keep| - 1] then 1 else 0)
  }

  /** Boolean indexing of one column: the cells whose mask entry is true, in
      their original order. */
  function Where<T>(s: seq<T>, keep: seq<bool>): (r: seq<T>)
    requires |keep| == |s|
    ensures |r| == Selected(keep)
    ensures forall x :: x in r ==> x in s
  {
    if s == [] then []
    else
      var n := |s| - 1;
      Where(s[..n], keep[..n]) + (if keep[n] then [s[n]] else [])
  }

  /** The positions at which a mask is true, in increasing order. */
  function TrueIndices(keep: seq<bool>): (idx: seq<nat>)
    ensures |idx| == Selected(keep)
    ensures forall j :: 0 <= j < |idx| ==> idx[j] < |keep|
    ensures forall j, k :: 0 <= j < k < |idx| ==> idx[j] < idx[k]
    ensures forall i :: 0 <= i < |keep| ==> (i in idx <==> keep[i])
  {
    if keep == [] then []
    else
      var n := |keep| - 1;
      TrueIndices(keep[..n]) + (if keep[n] then [n] else [])
  }

  /** Boolean indexing keeps exactly the cells at the true positions of the
      mask, in their original order. */
  lemma {:induction false} WhereAtTrueIndices<T>(s: seq<T>, keep: seq<bool>)
    requires |keep| == |s|
    ensures |Where(s, keep)| == |TrueIndices(keep)|
    ensures forall j :: 0 <= j < |Where(s, keep)| ==> Where(s, keep)[j] == s[TrueIndices(keep)[j]]
  {
    if s != [] {
      var n := |s| - 1;
      WhereAtTrueIndices(s[..n], keep[..n]);
      var w, k := Where(s[..n], keep[..n]), TrueIndices(keep[..n]);
      var tail, tailIdx := if keep[n] then [s[n]] else [], if keep[n] then [n] else [];
      assert Where(s, keep) == w + tail;
      assert TrueIndices(keep) == k + tailIdx;
      forall j | 0 <= j < |w|
        ensures Where(s, keep)[j] == s[TrueIndices(keep)[j]]
      {
        assert k[j] < n;
        assert (w + tail)[j] == w[j] == s[..n][k[j]] == s[k[j]];
        assert (k + tailIdx)[j] == k[j];
      }
    }
  }

  /** Boolean indexing of a column that may be absent from the frame. */
  function WhereColumn(c: Option<seq<real>>, keep: seq<bool>): (r: Option<seq<real>>)
    requires c.Some? ==> |c.value| == |keep|
    ensures r.Some? <==> c.Some?
    ensures r.Some? ==> |r.value| == Selected(keep)
  {
    match c
    case None => None
    case Some(col) => Some(Where(col, keep))
  }

  /** The rows of a cleaned frame, assembled from its columns. */
  function Zip(p: seq<Profile>, m: seq<Option<real>>, rf: seq<Option<real>>, l: seq<real>, u: seq<real>): (rows: seq<Record>)
    requires |m| == |p| && |rf| == |p| && |l| == |p| && |u| == |p|
    requires NoMissing(m) && NoMissing(rf)
    ensures |rows| == |p|
    ensures forall i :: 0 <= i < |p| ==>
      rows[i] == Record(p[i], m[i].value, rf[i].value, l[i], u[i])
  {
    if p == [] then []
    else
      var n := |p| - 1;
      assert m[n] in m && rf[n] in rf;
      Zip(p[..n], m[..n], rf[..n], l[..n], u[..n]) + [Record(p[n], m[n].value, rf[n].value, l[n], u[n])]
  }

  /** Appending one cell to every column appends one row. */
  lemma ZipSnoc(p: seq<Profile>, m: seq<Option<real>>, rf: seq<Option<real>>, l: seq<real>, u: seq<real>,
                x: Profile, y: real, z: real, w: real, v: real)
    requires |m| == |p| && |rf| == |p| && |l| == |p| && |u| == |p|
    requires NoMissing(m) && NoMissing(rf)
    ensures NoMissing(m + [Some(y)]) && NoMissing(rf + [Some(z)])
    ensures Zip(p + [x], m + [Some(y)], rf + [Some(z)], l + [w], u + [v])
         == Zip(p, m, rf, l, u) + [Record(x, y, z, w, v)]
  {
    var n := |p|;
    assert (p + [x])[..n] == p && (m + [Some(y)])[..n] == m && (rf + [Some(z)])[..n] == rf;
    assert (l + [w])[..n] == l && (u + [v])[..n] == u;
  }

  /** Selecting the same rows from every column selects those rows. */
  lemma {:induction false} ZipWhere(p: seq<Profile>, m: seq<Option<real>>, rf: seq<Option<real>>,
                                    l: seq<real>, u: seq<real>, keep: seq<bool>)
    requires |m| == |p| && |rf| == |p| && |l| == |p| && |u| == |p| && |keep| == |p|
    requires NoMissing(m) && NoMissing(rf)
    ensures NoMissing(Where(m, keep)) && NoMissing(Where(rf, keep))
    ensures Zip(Where(p, keep), Where(m, keep), Where(rf, keep), Where(l, keep), Where(u, keep))
         == Where(Zip(p, m, rf, l, u), keep)
  {
    if p != [] {
      var n := |p| - 1;
      var k := keep[..n];
      assert m[..n] <= m && rf[..n] <= rf;
      assert m[n] in m && rf[n] in rf;
      ZipWhere(p[..n], m[..n], rf[..n], l[..n], u[..n], k);
      var rows := Zip(p, m, rf, l, u);
      assert rows[..n] == Zip(p[..n], m[..n], rf[..n], l[..n], u[..n]);
      assert Where(rows, keep) == Where(rows[..n], k) + (if keep[n] then [rows[n]] else []);
      if keep[n] {
        assert Where(p, keep) == Where(p[..n], k) + [p[n]];
        assert Where(m, keep) == Where(m[..n], k) + [Some(m[n].value)];
        assert Where(rf, keep) == Where(rf[..n], k) + [Some(rf[n].value)];
        assert Where(l, keep) == Where(l[..n], k) + [l[n]];
        assert Where(u, keep) == Where(u[..n], k) + [u[n]];
        ZipSnoc(Where(p[..n], k), Where(m[..n], k), Where(rf[..n], k), Where(l[..n], k), Where(u[..n], k),
                p[n], m[n].value, rf[n].value, l[n], u[n]);
        assert rows[n] == Record(p[n], m[n].value, rf[n].value, l[n], u[n]);
      } else {
        assert Where(p, keep) == Where(p[..n], k) && Where(m, keep) == Where(m[..n], k);
        assert Where(rf, keep) == Where(rf[..n], k) && Where(l, keep) == Where(l[..n], k);
        assert Where(u, keep) == Where(u[..n], k);
      }
    }
  }

  class Frame {
    var profile: seq<Profile>
    var mrp: seq<Option<real>>          // "Sum of Total OPD MRP"
    var refund: seq<Option<real>>       // "Sum of Refund_Amount"
    var limit: seq<real>                // "Sum of OPD Limit"
    var totalUsed: Option<seq<real>>    // "Total OPD Used", None while the column is absent
    var opdPerc: Option<seq<real>>      // "Opd Perc", None while the column is absent

    /** Every column has one cell per row. */
    ghost predicate Valid()
      reads this
    {
      && |mrp| == |profile| && |refund| == |profile| && |limit| == |profile|
      && (totalUsed.Some? ==> |totalUsed.value| == |profile|)
      && (opdPerc.Some? ==> |opdPerc.value| == |profile|)
    }

    /** The amounts are filled and the usage column exists, so the frame
        reads as a sequence of cleaned rows. */
    ghost predicate Cleaned()
      reads this
    {
      Valid() && NoMissing(mrp) && NoMissing(refund) && totalUsed.Some?
    }

    /** The input columns, read row by row. */
    function Raw(): (t: seq<RawRecord>)
      reads this
      requires Valid()
      ensures |t| == |profile|
    {
      var p, m, rf, l := profile, mrp, refund, limit;
      seq(|p|, i requires 0 <= i < |p| => RawRecord(p[i], m[i], rf[i], l[i]))
    }

    /** The cleaned rows. */
    function Records(): (rows: seq<Record>)
      reads this
      requires Cleaned()
      ensures |rows| == |profile|
    {
      Zip(profile, mrp, refund, limit, totalUsed.value)
    }

    /** The table as read from the input file. */
    constructor Read(table: seq<RawRecord>)
      ensures Valid() && Raw() == table
      ensures totalUsed.None? && opdPerc.None?
    {
      profile := seq(|table|, i requires 0 <= i < |table| => table[i].profile);
      mrp := seq(|table|, i requires 0 <= i < |table| => table[i].mrp);
      refund := seq(|table|, i requires 0 <= i < |table| => table[i].refund);
      limit := seq(|table|, i requires 0 <= i < |table| => table[i].limit);
      totalUsed := None;
      opdPerc := None;
    }

    constructor Columns(p: seq<Profile>, m: seq<Option<real>>, rf: seq<Option<real>>, l: seq<real>,
                        u: Option<seq<real>>, perc: Option<seq<real>>)
      requires |m| == |p| && |rf| == |p| && |l| == |p|
      requires u.Some? ==> |u.value| == |p|
      requires perc.Some? ==> |perc.value| == |p|
      ensures Valid()
      ensures profile == p && mrp == m && refund == rf && limit == l && totalUsed == u && opdPerc == perc
    {
      profile, mrp, refund, limit, totalUsed, opdPerc := p, m, rf, l, u, perc;
    }

    /** `frame[mask]`: a new frame holding the selected rows of every column. */
    method Select(keep: seq<bool>) returns (f: Frame)
      requires Valid() && |keep| == |profile|
      ensures fresh(f) && f.Valid()
      ensures f.profile == Where(profile, keep) && f.mrp == Where(mrp, keep)
      ensures f.refund == Where(refund, keep) && f.limit == Where(limit, keep)
      ensures f.totalUsed == WhereColumn(totalUsed, keep) && f.opdPerc == WhereColumn(opdPerc, keep)
      ensures Cleaned() ==> f.Cleaned() && f.Records() == Where(Records(), keep)
    {
      f := new Frame.Columns(Where(profile, keep), Where(mrp, keep), Where(refund, keep), Where(limit, keep),
                             WhereColumn(totalUsed, keep), WhereColumn(opdPerc, keep));
      if Cleaned() {
        ZipWhere(profile, mrp, refund, limit, totalUsed.value, keep);
      }
    }
  }
}
