/** Grouping of the filtered rows by "Age" and the five scalar summaries of
    process_data (app.py). */
module Aggregation {
  import opened Table

  /** One row of the grouped table: an age and the four column sums of its rows. */
  datatype AgeGroup = AgeGroup(age: int, sums: Sums)

  /** Every group's age is below the ages of all the groups after it. */
  ghost predicate StrictlyAscending(gs: seq<AgeGroup>) {
    gs != [] ==> (forall g :: g in gs[1..] ==> gs[0].age < g.age) && StrictlyAscending(gs[1..])
  }

  /** The ages of an ascending table increase strictly from index to index. */
  lemma {:induction false} AscendingByIndex(gs: seq<AgeGroup>)
    requires StrictlyAscending(gs)
    ensures forall i, j :: 0 <= i < j < |gs| ==> gs[i].age < gs[j].age
  {
    if gs != [] {
      AscendingByIndex(gs[1..]);
      forall i, j | 0 <= i < j < |gs| ensures gs[i].age < gs[j].age {
        assert gs[j] == gs[1..][j - 1];
        if i > 0 {
          assert gs[i] == gs[1..][i - 1];
        }
      }
    }
  }

  function GroupAges(gs: seq<AgeGroup>): set<int> {
    set g | g in gs :: g.age
  }

  /** The sums recorded for an age, or zero when the age has no group. */
  function SumsAt(gs: seq<AgeGroup>, a: int): Sums {
    if gs == [] then NoSums
    else if gs[0].age == a then gs[0].sums
    else SumsAt(gs[1..], a)
  }

  /** The column-wise sum over the grouped table. */
  function GroupTotal(gs: seq<AgeGroup>): Sums {
    if gs == [] then NoSums else gs[0].sums.Plus(GroupTotal(gs[1..]))
  }

  /** The rows of one age, in table order. */
  function OfAge(rows: seq<Record>, a: int): seq<Record> {
    if rows == [] then []
    else
      var n := |rows| - 1;
      OfAge(rows[..n], a) + (if rows[n].profile.age == a then [rows[n]] else [])
  }

  lemma {:induction false} NoSumsBelowFirstAge(gs: seq<AgeGroup>, a: int)
    requires StrictlyAscending(gs)
    requires gs != [] ==> a < gs[0].age
    ensures SumsAt(gs, a) == NoSums
  {
    if gs != [] {
      NoSumsBelowFirstAge(gs[1..], a);
    }
  }

  /** Adds one row to an ascending grouped table: into the group of its age
      when there is one, otherwise as a new group in age order. */
  function Insert(gs: seq<AgeGroup>, r: Record): (res: seq<AgeGroup>)
    ensures |gs| <= |res| <= |gs| + 1
  {
    var a := r.profile.age;
    if gs == [] then [AgeGroup(a, Amounts(r))]
    else if a < gs[0].age then [AgeGroup(a, Amounts(r))] + gs
    else if a == gs[0].age then [AgeGroup(a, gs[0].sums.Plus(Amounts(r)))] + gs[1..]
    else [gs[0]] + Insert(gs[1..], r)
  }

  /** Every group after an insertion has the row's age or was there before. */
  lemma {:induction false} InsertKeepsGroups(gs: seq<AgeGroup>, r: Record)
    ensures forall g :: g in Insert(gs, r) ==> g.age == r.profile.age || g in gs
  {
    if gs != [] && r.profile.age > gs[0].age {
      InsertKeepsGroups(gs[1..], r);
      assert Insert(gs, r) == [gs[0]] + Insert(gs[1..], r);
      assert forall g :: g in gs[1..] ==> g in gs;
    }
  }

  /** Inserting a row adds exactly its age to the ages of the table. */
  lemma {:induction false} InsertAddsItsAge(gs: seq<AgeGroup>, r: Record)
    ensures GroupAges(Insert(gs, r)) == GroupAges(gs) + {r.profile.age}
  {
    if gs != [] {
      assert gs == [gs[0]] + gs[1..];
      assert GroupAges(gs) == {gs[0].age} + GroupAges(gs[1..]);
      if r.profile.age > gs[0].age {
        InsertAddsItsAge(gs[1..], r);
        assert Insert(gs, r) == [gs[0]] + Insert(gs[1..], r);
        assert GroupAges(Insert(gs, r)) == {gs[0].age} + GroupAges(Insert(gs[1..], r));
      } else if r.profile.age == gs[0].age {
        assert GroupAges(Insert(gs, r)) == {gs[0].age} + GroupAges(gs[1..]);
      } else {
        assert GroupAges(Insert(gs, r)) == {r.profile.age} + GroupAges(gs);
      }
    }
  }

  /** Inserting a row keeps the table strictly ascending. */
  lemma {:induction false} InsertKeepsOrder(gs: seq<AgeGroup>, r: Record)
    requires StrictlyAscending(gs)
    ensures StrictlyAscending(Insert(gs, r))
  {
    var a := r.profile.age;
    var res := Insert(gs, r);
    if gs == [] {
      assert res[1..] == [];
    } else if a < gs[0].age {
      assert res[1..] == gs;
      assert forall g :: g in gs ==> g == gs[0] || g in gs[1..];
    } else if a == gs[0].age {
      assert res[1..] == gs[1..];
    } else {
      var rest := Insert(gs[1..], r);
      InsertKeepsOrder(gs[1..], r);
      InsertKeepsGroups(gs[1..], r);
      assert res[1..] == rest;
    }
  }

  lemma {:induction false} InsertAddsToItsAge(gs: seq<AgeGroup>, r: Record, a: int)
    requires StrictlyAscending(gs)
    ensures SumsAt(Insert(gs, r), a) == if a == r.profile.age then SumsAt(gs, a).Plus(Amounts(r)) else SumsAt(gs, a)
  {
    if gs != [] {
      if r.profile.age < gs[0].age {
        NoSumsBelowFirstAge(gs, r.profile.age);
      } else if r.profile.age > gs[0].age {
        InsertAddsToItsAge(gs[1..], r, a);
      } else if a != r.profile.age {
        assert SumsAt(Insert(gs, r), a) == SumsAt(gs[1..], a);
      }
    }
  }

  lemma {:induction false} InsertAddsToTotal(gs: seq<AgeGroup>, r: Record)
    ensures GroupTotal(Insert(gs, r)) == GroupTotal(gs).Plus(Amounts(r))
  {
    if gs != [] && r.profile.age > gs[0].age {
      InsertAddsToTotal(gs[1..], r);
    }
  }

  /** `groupby("Age").agg(sum)`: built one row at a time. */
  function GroupByAge(rows: seq<Record>): (gs: seq<AgeGroup>)
    ensures |gs| <= |rows|
    ensures rows != [] ==> gs != []
  {
    if rows == [] then [] else Insert(GroupByAge(rows[..|rows| - 1]), rows[|rows| - 1])
  }

  lemma {:induction false} GroupByAgeAscending(rows: seq<Record>)
    ensures StrictlyAscending(GroupByAge(rows))
  {
    if rows != [] {
      GroupByAgeAscending(rows[..|rows| - 1]);
      InsertKeepsOrder(GroupByAge(rows[..|rows| - 1]), rows[|rows| - 1]);
    }
  }

  lemma {:induction false} GroupByAgeAges(rows: seq<Record>)
    ensures GroupAges(GroupByAge(rows)) == AgeSet(rows)
  {
    if rows != [] {
      var n := |rows| - 1;
      GroupByAgeAges(rows[..n]);
      InsertAddsItsAge(GroupByAge(rows[..n]), rows[n]);
      assert rows == rows[..n] + [rows[n]];
      assert AgeSet(rows) == AgeSet(rows[..n]) + {rows[n].profile.age};
    }
  }

  lemma {:induction false} GroupByAgeTotal(rows: seq<Record>)
    ensures GroupTotal(GroupByAge(rows)) == TotalOf(rows)
  {
    if rows != [] {
      GroupByAgeTotal(rows[..|rows| - 1]);
      InsertAddsToTotal(GroupByAge(rows[..|rows| - 1]), rows[|rows| - 1]);
    }
  }

  lemma {:induction false} GroupByAgeSumsAt(rows: seq<Record>, a: int)
    ensures SumsAt(GroupByAge(rows), a) == TotalOf(OfAge(rows, a))
  {
    if rows != [] {
      var n := |rows| - 1;
      var front, r := rows[..n], rows[n];
      GroupByAgeSumsAt(front, a);
      GroupByAgeAscending(front);
      InsertAddsToItsAge(GroupByAge(front), r, a);
      var o := OfAge(front, a);
      if r.profile.age == a {
        assert OfAge(rows, a) == o + [r];
        assert (o + [r])[..|o|] == o;
        assert TotalOf(o + [r]) == TotalOf(o).Plus(Amounts(r));
      } else {
        assert OfAge(rows, a) == o;
      }
    }
  }

  /** The grouped table has one group per distinct age, in ascending order,
      the sums of each age are the totals of its rows, and grouping
      preserves the column totals. */
  lemma GroupByAgeIsPartition(rows: seq<Record>)
    ensures StrictlyAscending(GroupByAge(rows))
    ensures GroupAges(GroupByAge(rows)) == AgeSet(rows)
    ensures GroupTotal(GroupByAge(rows)) == TotalOf(rows)
    ensures forall a :: SumsAt(GroupByAge(rows), a) == TotalOf(OfAge(rows, a))
  {
    GroupByAgeAscending(rows);
    GroupByAgeAges(rows);
    GroupByAgeTotal(rows);
    forall a ensures SumsAt(GroupByAge(rows), a) == TotalOf(OfAge(rows, a)) {
      GroupByAgeSumsAt(rows, a);
    }
  }

  /** In an ascending table each group carries the sums recorded for its age. */
  lemma {:induction false} GroupHoldsSumsAt(gs: seq<AgeGroup>, i: nat)
    requires StrictlyAscending(gs) && i < |gs|
    ensures SumsAt(gs, gs[i].age) == gs[i].sums
  {
    if i > 0 {
      GroupHoldsSumsAt(gs[1..], i - 1);
    }
  }

  /** Each group holds the sums of exactly the rows of its age. */
  lemma GroupSumsAreAgeTotals(rows: seq<Record>)
    ensures forall i :: 0 <= i < |GroupByAge(rows)| ==>
      GroupByAge(rows)[i].sums == TotalOf(OfAge(rows, GroupByAge(rows)[i].age))
  {
    var gs := GroupByAge(rows);
    GroupByAgeIsPartition(rows);
    forall i | 0 <= i < |gs| ensures gs[i].sums == TotalOf(OfAge(rows, gs[i].age)) {
      GroupHoldsSumsAt(gs, i);
    }
  }

  /** An ascending table has as many groups as distinct ages. */
  lemma {:induction false} AscendingGroupsAreDistinct(gs: seq<AgeGroup>)
    requires StrictlyAscending(gs)
    ensures |GroupAges(gs)| == |gs|
  {
    if gs != [] {
      AscendingGroupsAreDistinct(gs[1..]);
      assert GroupAges(gs) == {gs[0].age} + GroupAges(gs[1..]);
      assert gs[0].age !in GroupAges(gs[1..]);
    }
  }

  /** The five summary figures shown above the chart. */
  datatype Summary = Summary(
    opdAssigned: real,
    opdExhausted: real,
    totalCustomers: nat,
    inOpdUsed: real,
    reimbursementsUsed: real
  )

  function Summarize(groups: seq<AgeGroup>): (s: Summary)
    ensures s.totalCustomers == |groups|
  {
    var t := GroupTotal(groups);
    Summary(t.limit, t.used, |groups|, t.mrp, t.refund)
  }

  /** The summaries over the grouped table are the column totals over the
      rows, the customer count is the number of distinct ages, exhausted is
      in-OPD plus reimbursements, and an empty table gives zeros. */
  lemma SummaryOfRows(rows: seq<Record>)
    ensures var s, t := Summarize(GroupByAge(rows)), TotalOf(rows);
      && s.opdAssigned == t.limit && s.opdExhausted == t.used
      && s.inOpdUsed == t.mrp && s.reimbursementsUsed == t.refund
      && s.totalCustomers == |AgeSet(rows)|
    ensures (forall r :: r in rows ==> UsageSplits(r)) ==>
      Summarize(GroupByAge(rows)).opdExhausted
        == Summarize(GroupByAge(rows)).inOpdUsed + Summarize(GroupByAge(rows)).reimbursementsUsed
    ensures rows == [] ==> Summarize(GroupByAge(rows)) == Summary(0.0, 0.0, 0, 0.0, 0.0)
  {
    GroupByAgeIsPartition(rows);
    AscendingGroupsAreDistinct(GroupByAge(rows));
    if forall r :: r in rows ==> UsageSplits(r) {
      TotalUsageSplits(rows);
    }
  }
}
