/** The usage ratio of each age group, its slab under `pd.cut` with
    right-closed bins, and the 12-row table of slab counts (app.py,
    process_data). */
module Binning {
  import opened Table
  import opened Aggregation

  /** A bin edge: a real number or one of the two infinities. */
  datatype Bound = NegInf | At(x: real) | PosInf

  const SlabTotal: nat := 12

  /** A slab, by its position in the fixed label order. */
  type Slab = k: nat | k < SlabTotal

  /** The k-th of the 13 edges -inf, 0, 0.1, ..., 0.9, 1, +inf. */
  function Bin(k: nat): Bound
    requires k <= SlabTotal
  {
    if k == 0 then NegInf
    else if k == SlabTotal then PosInf
    else At((k - 1) as real / 10.0)
  }

  /** The edges are exactly the list of the source, in order. */
  lemma BinsListed()
    ensures [Bin(0), Bin(1), Bin(2), Bin(3), Bin(4), Bin(5), Bin(6), Bin(7), Bin(8), Bin(9), Bin(10), Bin(11), Bin(12)]
         == [NegInf, At(0.0), At(0.1), At(0.2), At(0.3), At(0.4), At(0.5), At(0.6), At(0.7), At(0.8), At(0.9), At(1.0), PosInf]
  {
  }

  const Labels: seq<string> := ["<0%", "1-10%", "11-20%", "21-30%", "31-40%", "41-50%",
                                "51-60%", "61-70%", "71-80%", "81-90%", "91-100%", ">100%"]

  /** x lies strictly above the edge b. */
  predicate Above(x: real, b: Bound) {
    match b
    case NegInf => true
    case At(y) => x > y
    case PosInf => false
  }

  /** x lies in slab k, the interval (Bin(k), Bin(k + 1)]. */
  predicate InSlab(x: real, k: Slab) {
    Above(x, Bin(k)) && !Above(x, Bin(k + 1))
  }

  /** The first slab from k on whose right edge is at or above x. */
  function Locate(x: real, k: Slab): (j: Slab)
    requires Above(x, Bin(k))
    ensures k <= j && InSlab(x, j)
    decreases SlabTotal - k
  {
    if !Above(x, Bin(k + 1)) then k else Locate(x, k + 1)
  }

  /** `pd.cut(x, bins, labels)` with the default right-closed intervals. */
  function SlabOf(x: real): (k: Slab)
    ensures InSlab(x, k)
  {
    Locate(x, 0)
  }

  /** Edges with a higher index are not lower. */
  lemma EdgesIncrease(j: nat, k: nat, x: real)
    requires j <= k <= SlabTotal
    requires Above(x, Bin(k))
    ensures Above(x, Bin(j))
  {
  }

  /** The finite edges strictly increase, as `pd.cut` requires of its bins;
      the first edge is -inf and the last +inf. */
  lemma EdgesStrictlyIncrease(j: nat, k: nat)
    requires 0 < j < k < SlabTotal
    ensures Bin(j).At? && Bin(k).At? && Bin(j).x < Bin(k).x
    ensures Bin(0) == NegInf && Bin(SlabTotal) == PosInf
  {
    assert (j - 1) as real < (k - 1) as real;
  }

  /** Every ratio falls in exactly one slab, the one SlabOf picks. */
  lemma SlabIsUnique(x: real, k: Slab)
    ensures InSlab(x, k) <==> k == SlabOf(x)
  {
  }

  /** The slabs at the edges: 0 and below, exactly 0.1, exactly 1, above 1. */
  lemma EdgeSlabs(x: real)
    ensures x <= 0.0 ==> SlabOf(x) == 0
    ensures x == 0.1 ==> SlabOf(x) == 1
    ensures x == 1.0 ==> SlabOf(x) == 10
    ensures x > 1.0 ==> SlabOf(x) == 11
  {
    if x <= 0.0 { SlabIsUnique(x, 0); }
    if x == 0.1 { SlabIsUnique(x, 1); }
    if x == 1.0 { SlabIsUnique(x, 10); }
    if x > 1.0 { SlabIsUnique(x, 11); }
  }

  /** "Opd Used Perc": used over limit, or 0 when the limit is not positive. */
  function UsageRatio(g: AgeGroup): (q: real)
    ensures g.sums.limit > 0.0 ==> q * g.sums.limit == g.sums.used
    ensures g.sums.limit <= 0.0 ==> q == 0.0
  {
    if g.sums.limit > 0.0 then g.sums.used / g.sums.limit else 0.0
  }

  /** For a positive limit, `used / limit <= k / 10` is `10 * used <= k * limit`. */
  lemma {:induction false} RatioAtMostEdge(used: real, limit: real, k: nat)
    requires limit > 0.0
    ensures used / limit <= k as real / 10.0 <==> 10.0 * used <= k as real * limit
  {
    var q := used / limit;
    assert used == q * limit;
    if q <= k as real / 10.0 {
      assert 10.0 * q * limit <= k as real * limit;
    } else {
      assert 10.0 * q * limit > k as real * limit;
    }
  }

  /** With a positive limit a group is in "<0%" exactly when it used nothing. */
  lemma LowSlab(g: AgeGroup)
    requires g.sums.limit > 0.0
    ensures SlabOf(UsageRatio(g)) == 0 <==> g.sums.used <= 0.0
  {
    var x := UsageRatio(g);
    SlabIsUnique(x, 0);
    assert InSlab(x, 0) <==> x <= 0.0;
    RatioAtMostEdge(g.sums.used, g.sums.limit, 0);
  }

  /** With a positive limit a group is in ">100%" exactly when it used more
      than its limit. */
  lemma HighSlab(g: AgeGroup)
    requires g.sums.limit > 0.0
    ensures SlabOf(UsageRatio(g)) == SlabTotal - 1 <==> g.sums.used > g.sums.limit
  {
    var x := UsageRatio(g);
    SlabIsUnique(x, SlabTotal - 1);
    assert InSlab(x, SlabTotal - 1) <==> x > 1.0;
    RatioAtMostEdge(g.sums.used, g.sums.limit, 10);
  }

  /** A middle slab k holds the ratios in ((k - 1) / 10, k / 10]. */
  lemma MiddleSlabBounds(x: real, k: Slab)
    requires 0 < k < SlabTotal - 1
    ensures InSlab(x, k) <==> (k - 1) as real / 10.0 < x <= k as real / 10.0
  {
    assert Bin(k) == At((k - 1) as real / 10.0) && Bin(k + 1) == At(k as real / 10.0);
  }

  /** Both edges of a middle slab, stated without division. */
  lemma RatioBetweenEdges(g: AgeGroup, k: nat)
    requires g.sums.limit > 0.0 && 0 < k
    ensures (k - 1) as real / 10.0 < UsageRatio(g) <= k as real / 10.0 <==>
      (k - 1) as real * g.sums.limit < 10.0 * g.sums.used <= k as real * g.sums.limit
  {
    RatioAtMostEdge(g.sums.used, g.sums.limit, k - 1);
    RatioAtMostEdge(g.sums.used, g.sums.limit, k);
  }

  /** With a positive limit a group is in slab k, for 0 < k < 11, exactly
      when (k - 1) * limit < 10 * used <= k * limit. */
  lemma MiddleSlab(g: AgeGroup, k: Slab)
    requires g.sums.limit > 0.0 && 0 < k < SlabTotal - 1
    ensures SlabOf(UsageRatio(g)) == k <==>
      (k - 1) as real * g.sums.limit < 10.0 * g.sums.used <= k as real * g.sums.limit
  {
    MiddleSlabBounds(UsageRatio(g), k);
    RatioBetweenEdges(g, k);
    SlabIsUnique(UsageRatio(g), k);
  }

  /** The slab of a group, stated without division: a non-positive limit or
      usage gives "<0%", usage above the limit gives ">100%", and otherwise
      slab k holds the groups with (k - 1) * limit < 10 * used <= k * limit. */
  lemma GroupSlab(g: AgeGroup, k: Slab)
    ensures g.sums.limit <= 0.0 ==> SlabOf(UsageRatio(g)) == 0
    ensures g.sums.limit > 0.0 && k == 0 ==> (SlabOf(UsageRatio(g)) == k <==> g.sums.used <= 0.0)
    ensures g.sums.limit > 0.0 && k == SlabTotal - 1 ==> (SlabOf(UsageRatio(g)) == k <==> g.sums.used > g.sums.limit)
    ensures g.sums.limit > 0.0 && 0 < k < SlabTotal - 1 ==>
      (SlabOf(UsageRatio(g)) == k <==>
        (k - 1) as real * g.sums.limit < 10.0 * g.sums.used <= k as real * g.sums.limit)
  {
    if g.sums.limit <= 0.0 {
      EdgeSlabs(UsageRatio(g));
    } else if k == 0 {
      LowSlab(g);
    } else if k == SlabTotal - 1 {
      HighSlab(g);
    } else {
      MiddleSlab(g, k);
    }
  }

  /** The "OPD Slab" column. */
  function Slabs(groups: seq<AgeGroup>): (s: seq<Slab>)
    ensures |s| == |groups|
    ensures forall i :: 0 <= i < |groups| ==> InSlab(UsageRatio(groups[i]), s[i])
  {
    seq(|groups|, i requires 0 <= i < |groups| => SlabOf(UsageRatio(groups[i])))
  }

  /** A column that puts each group's ratio in a slab containing it is the
      slab column. */
  lemma SlabColumnIsSlabs(groups: seq<AgeGroup>, ratios: seq<real>, slabs: seq<Slab>)
    requires |ratios| == |groups| && |slabs| == |groups|
    requires forall i :: 0 <= i < |groups| ==> ratios[i] == UsageRatio(groups[i])
    requires forall i :: 0 <= i < |groups| ==> InSlab(ratios[i], slabs[i])
    ensures slabs == Slabs(groups)
  {
    forall i | 0 <= i < |slabs| ensures slabs[i] == Slabs(groups)[i] {
      SlabIsUnique(ratios[i], slabs[i]);
    }
  }

  /** One row of the result: a slab label and how many groups fell in it. */
  datatype SlabCount = SlabCount(slabLabel: string, count: nat)

  function TotalCount(table: seq<SlabCount>): nat {
    if table == [] then 0 else TotalCount(table[..|table| - 1]) + table[|table| - 1].count
  }

  /** The number of entries of s in the first n slabs. */
  function CountBelow(s: seq<Slab>, n: nat): nat {
    if n == 0 then 0 else CountBelow(s, n - 1) + multiset(s)[(n - 1) as Slab]
  }

  lemma {:induction false} CountBelowAppend(s: seq<Slab>, x: Slab, n: nat)
    requires n <= SlabTotal
    ensures CountBelow(s + [x], n) == CountBelow(s, n) + (if x < n then 1 else 0)
  {
    if n > 0 {
      CountBelowAppend(s, x, n - 1);
      assert multiset(s + [x]) == multiset(s) + multiset{x};
    }
  }

  lemma {:induction false} CountBelowEmpty(n: nat)
    ensures CountBelow([], n) == 0
  {
    if n > 0 {
      CountBelowEmpty(n - 1);
    }
  }

  /** Every entry lies in one of the 12 slabs. */
  lemma {:induction false} CountBelowAll(s: seq<Slab>)
    ensures CountBelow(s, SlabTotal) == |s|
  {
    if s == [] {
      CountBelowEmpty(SlabTotal);
    } else {
      var n := |s| - 1;
      var front := s[..n];
      CountBelowAll(front);
      CountBelowAppend(front, s[n], SlabTotal);
      assert front + [s[n]] == s;
      assert CountBelow(s, SlabTotal) == CountBelow(front, SlabTotal) + 1;
    }
  }

  lemma {:induction false} TotalCountPrefix(table: seq<SlabCount>, s: seq<Slab>, n: nat)
    requires |table| == SlabTotal && n <= SlabTotal
    requires forall k :: 0 <= k < SlabTotal ==> table[k].count == multiset(s)[k as Slab]
    ensures TotalCount(table[..n]) == CountBelow(s, n)
  {
    if n > 0 {
      TotalCountPrefix(table, s, n - 1);
      assert table[..n][..n - 1] == table[..n - 1];
    }
  }

  /** `value_counts().sort_index()` on the categorical slab column: all 12
      labels in their fixed order, each with the number of groups in its
      slab (0 for an empty slab); the counts add up to the number of groups. */
  function SlabTable(slabs: seq<Slab>): (table: seq<SlabCount>)
    ensures |table| == SlabTotal
    ensures forall k :: 0 <= k < SlabTotal ==> table[k].slabLabel == Labels[k] && table[k].count == multiset(slabs)[k as Slab]
    ensures TotalCount(table) == |slabs|
  {
    var table := seq(SlabTotal, k requires 0 <= k < SlabTotal => SlabCount(Labels[k], multiset(slabs)[k as Slab]));
    TotalCountPrefix(table, slabs, SlabTotal);
    CountBelowAll(slabs);
    assert table[..SlabTotal] == table;
    table
  }
}
