/** process_data (app.py): filter the loaded table, group it by age, take
    the summaries, add the ratio and slab columns to the grouped table and
    count the slabs. */
module Analysis {
  import opened Table
  import opened Frames
  import opened Filtering
  import opened Aggregation
  import opened Binning
  import opened Loader

  /** The grouped table `grouped_data`, to which the ratio and slab columns
      are added in place. */
  class AgeTable {
    var groups: seq<AgeGroup>            // "Age" and the four summed columns
    var usedPerc: Option<seq<real>>      // "Opd Used Perc", None while absent
    var slab: Option<seq<Slab>>          // "OPD Slab", None while absent

    ghost predicate Valid()
      reads this
    {
      && (usedPerc.Some? ==> |usedPerc.value| == |groups|)
      && (slab.Some? ==> |slab.value| == |groups|)
    }

    constructor (gs: seq<AgeGroup>)
      ensures Valid() && groups == gs && usedPerc.None? && slab.None?
    {
      groups, usedPerc, slab := gs, None, None;
    }

    /** Adds "Opd Used Perc": used over limit where the limit is positive, else 0. */
    method AddUsageRatio()
      requires Valid()
      modifies this
      ensures Valid() && groups == old(groups) && slab == old(slab)
      ensures usedPerc.Some? && |usedPerc.value| == |groups|
      ensures forall i :: 0 <= i < |groups| ==> usedPerc.value[i] == UsageRatio(groups[i])
    {
      var gs := groups;
      usedPerc := Some(seq(|gs|, i requires 0 <= i < |gs| => UsageRatio(gs[i])));
    }

    /** Adds "OPD Slab" by cutting the ratio column into the 12 slabs. */
    method AddSlab()
      requires Valid() && usedPerc.Some?
      modifies this
      ensures Valid() && groups == old(groups) && usedPerc == old(usedPerc)
      ensures slab.Some? && |slab.value| == |groups|
      ensures forall i :: 0 <= i < |groups| ==> InSlab(usedPerc.value[i], slab.value[i])
    {
      var ratios := usedPerc.value;
      slab := Some(seq(|ratios|, i requires 0 <= i < |ratios| => SlabOf(ratios[i])));
    }
  }

  /** The rows the analysis works on. */
  function Kept(data: Frame, sel: Selection): seq<Record>
    reads data
    requires data.Cleaned()
  {
    Filter(data.Records(), sel)
  }

  /** process_data: the summaries shown above the chart and the slab table. */
  method ProcessData(data: Frame, sel: Selection) returns (summary: Summary, slabCounts: seq<SlabCount>)
    requires data.Cleaned()
    ensures summary == Summarize(GroupByAge(Kept(data, sel)))
    ensures slabCounts == SlabTable(Slabs(GroupByAge(Kept(data, sel))))
    ensures summary.opdAssigned == TotalOf(Kept(data, sel)).limit
    ensures summary.opdExhausted == TotalOf(Kept(data, sel)).used
    ensures summary.inOpdUsed == TotalOf(Kept(data, sel)).mrp
    ensures summary.reimbursementsUsed == TotalOf(Kept(data, sel)).refund
    ensures summary.totalCustomers == |AgeSet(Kept(data, sel))|
    ensures |slabCounts| == SlabTotal
    ensures forall k :: 0 <= k < SlabTotal ==> slabCounts[k].slabLabel == Labels[k]
    ensures TotalCount(slabCounts) == summary.totalCustomers
  {
    var filtered := Filter(data.Records(), sel);
    var grouped := new AgeTable(GroupByAge(filtered));
    summary := Summarize(grouped.groups);
    SummaryOfRows(filtered);

    grouped.AddUsageRatio();
    grouped.AddSlab();
    SlabColumnIsSlabs(grouped.groups, grouped.usedPerc.value, grouped.slab.value);
    slabCounts := SlabTable(grouped.slab.value);
  }

  /** On the loaded table, OPD exhausted is in-OPD plus reimbursements for
      every choice of filters. */
  lemma LoadedSplits(raw: seq<RawRecord>, sel: Selection)
    ensures var s := Summarize(GroupByAge(Filter(Clean(raw), sel)));
      s.opdExhausted == s.inOpdUsed + s.reimbursementsUsed
  {
    FilterMembership(Clean(raw), sel);
    SummaryOfRows(Filter(Clean(raw), sel));
  }

  /** With every multiselect at its default the analysis covers the whole
      loaded table. */
  lemma DefaultsCoverLoadedTable(data: Frame)
    requires data.Cleaned()
    ensures Kept(data, DefaultSelection(data.Records())) == data.Records()
  {
    DefaultSelectionKeepsAll(data.Records());
  }

  /** An empty choice in any dimension gives zero summaries and twelve empty
      slabs. */
  lemma EmptyChoiceGivesEmptyResult(rows: seq<Record>, sel: Selection)
    requires sel.renTypes == {} || sel.policyYears == {} || sel.planTypes == {}
          || sel.familyStructures == {} || sel.ageBands == {}
    ensures Summarize(GroupByAge(Filter(rows, sel))) == Summary(0.0, 0.0, 0, 0.0, 0.0)
    ensures var table := SlabTable(Slabs(GroupByAge(Filter(rows, sel))));
      |table| == SlabTotal && forall k :: 0 <= k < SlabTotal ==> table[k].count == 0
  {
    EmptyChoiceKeepsNothing(rows, sel);
    SummaryOfRows([]);
  }

  /** Two cleaned rows of ages 30 and 40, using 500 of 1000 and 2400 of 2000. */
  function ExampleRows(p30: Profile, p40: Profile): seq<Record> {
    [Record(p30, 500.0, 0.0, 1000.0, 500.0), Record(p40, 2400.0, 0.0, 2000.0, 2400.0)]
  }

  lemma ExampleGroups(p30: Profile, p40: Profile)
    requires p30.age == 30 && p40.age == 40
    ensures GroupByAge(ExampleRows(p30, p40))
         == [AgeGroup(30, Sums(500.0, 1000.0, 500.0, 0.0)), AgeGroup(40, Sums(2400.0, 2000.0, 2400.0, 0.0))]
  {
    var rows := ExampleRows(p30, p40);
    var g30, g40 := AgeGroup(30, Amounts(rows[0])), AgeGroup(40, Amounts(rows[1]));
    assert rows[..1] == [rows[0]];
    assert GroupByAge(rows[..1]) == Insert([], rows[0]) == [g30];
    assert Insert([g30], rows[1]) == [g30] + Insert([], rows[1]) == [g30, g40];
  }

  /** The example's groups fall in "41-50%" and ">100%". */
  lemma ExampleSlabs(p30: Profile, p40: Profile)
    requires p30.age == 30 && p40.age == 40
    ensures Slabs(GroupByAge(ExampleRows(p30, p40))) == [5, 11]
  {
    ExampleGroups(p30, p40);
    var groups := GroupByAge(ExampleRows(p30, p40));
    assert UsageRatio(groups[0]) == 0.5 && UsageRatio(groups[1]) == 1.2;
    SlabIsUnique(0.5, 5);
    SlabIsUnique(1.2, 11);
  }

  /** The example gives two groups, one in "41-50%" and one in ">100%", with
      3000 assigned and 2900 exhausted. */
  lemma TwoAgesExample(p30: Profile, p40: Profile)
    requires p30.age == 30 && p40.age == 40
    ensures var groups := GroupByAge(ExampleRows(p30, p40));
      var table := SlabTable(Slabs(groups));
      && Summarize(groups) == Summary(3000.0, 2900.0, 2, 2900.0, 0.0)
      && table[5] == SlabCount("41-50%", 1) && table[11] == SlabCount(">100%", 1)
      && forall k :: 0 <= k < SlabTotal && k != 5 && k != 11 ==> table[k].count == 0
  {
    ExampleGroups(p30, p40);
    ExampleSlabs(p30, p40);
    var g30, g40 := AgeGroup(30, Sums(500.0, 1000.0, 500.0, 0.0)), AgeGroup(40, Sums(2400.0, 2000.0, 2400.0, 0.0));
    var groups := [g30, g40];
    assert groups[1..] == [g40] && [g40][1..] == [];
    assert GroupTotal([g40]) == g40.sums.Plus(NoSums) == g40.sums;
    assert GroupTotal(groups) == Sums(2900.0, 3000.0, 2900.0, 0.0);
    var slabs: seq<Slab> := [5, 11];
    assert multiset(slabs) == multiset{5, 11};
  }
}
