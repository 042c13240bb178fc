/** The rows of the OPD usage table and the four amounts the pipeline sums. */
module Table {

  /** A value that may be missing (a NaN cell of a numeric column). */
  datatype Option<T> = None | Some(value: T)

  /** The columns of a row that the pipeline never changes: the five filter
      dimensions and the grouping key "Age". */
  datatype Profile = Profile(
    renType: string,          // "ren_type"
    policyYear: int,          // "Sum of Policy start Year"
    planType: string,         // "Plan Type"
    familyStructure: string,  // "Family Structure"
    ageBand: string,          // "Age Band"
    age: int                  // "Age"
  )

  /** A row as read from the input file. */
  datatype RawRecord = RawRecord(
    profile: Profile,
    mrp: Option<real>,        // "Sum of Total OPD MRP", may be missing
    refund: Option<real>,     // "Sum of Refund_Amount", may be missing
    limit: real               // "Sum of OPD Limit"
  )

  /** A row once the loader has filled the missing amounts and derived the
      usage column. */
  datatype Record = Record(
    profile: Profile,
    mrp: real,
    refund: real,
    limit: real,
    totalUsed: real           // "Total OPD Used"
  )

  /** The four summed columns of the analysis, in one place. */
  datatype Sums = Sums(used: real, limit: real, mrp: real, refund: real) {
    function Plus(other: Sums): Sums {
      Sums(used + other.used, limit + other.limit, mrp + other.mrp, refund + other.refund)
    }
  }

  const NoSums: Sums := Sums(0.0, 0.0, 0.0, 0.0)

  function Amounts(r: Record): Sums {
    Sums(r.totalUsed, r.limit, r.mrp, r.refund)
  }

  /** Column-wise sum of the four amounts over a sequence of rows. */
  function TotalOf(rows: seq<Record>): Sums {
    if rows == [] then NoSums
    else TotalOf(rows[..|rows| - 1]).Plus(Amounts(rows[|rows| - 1]))
  }

  /** The distinct values of the "Age" column. */
  function AgeSet(rows: seq<Record>): set<int> {
    set r | r in rows :: r.profile.age
  }

  /** A row whose usage is the sum of its two components. */
  predicate UsageSplits(r: Record) {
    r.totalUsed == r.mrp + r.refund
  }

  /** Over rows whose usage splits into MRP and refund, so does the total. */
  lemma {:induction false} TotalUsageSplits(rows: seq<Record>)
    requires forall r :: r in rows ==> UsageSplits(r)
    ensures TotalOf(rows).used == TotalOf(rows).mrp + TotalOf(rows).refund
  {
    if rows != [] {
      var front := rows[..|rows| - 1];
      assert forall r :: r in front ==> r in rows;
      TotalUsageSplits(front);
      assert UsageSplits(rows[|rows| - 1]);
    }
  }
}
