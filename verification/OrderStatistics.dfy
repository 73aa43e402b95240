/** Sorting, medians and nearest-rank percentiles: scripts/smoke/benchmark_schema.py,
    `percentile` and `distribution`. Floats are modelled as reals. */
module OrderStatistics {

  ghost predicate Sorted(s: seq<real>) { forall i, j :: 0 <= i <= j < |s| ==> s[i] <= s[j] }

  function Insert(x: real, s: seq<real>): (r: seq<real>)
    ensures |r| == |s| + 1
  {
    if s == [] || x <= s[0] then [x] + s else [s[0]] + Insert(x, s[1..])
  }

  /** `sorted(values)` */
  function Sort(s: seq<real>): (r: seq<real>)
    ensures |r| == |s|
  {
    if s == [] then [] else Insert(s[0], Sort(s[1..]))
  }

  lemma {:induction false} InsertMembers(x: real, s: seq<real>)
    ensures multiset(Insert(x, s)) == multiset{x} + multiset(s)
  {
    if s != [] && x > s[0] {
      InsertMembers(x, s[1..]);
      assert s == [s[0]] + s[1..];
    }
  }

  predicate AtLeast(v: real, s: seq<real>) { forall i :: 0 <= i < |s| ==> v <= s[i] }

  lemma {:induction false} InsertAtLeast(v: real, x: real, s: seq<real>)
    requires v <= x && AtLeast(v, s)
    ensures AtLeast(v, Insert(x, s))
  {
    if s != [] && x > s[0] { InsertAtLeast(v, x, s[1..]); }
  }

  lemma {:induction false} InsertSorted(x: real, s: seq<real>)
    requires Sorted(s)
    ensures Sorted(Insert(x, s))
  {
    if s != [] && x > s[0] {
      InsertSorted(x, s[1..]);
      InsertAtLeast(s[0], x, s[1..]);
    }
  }

  /** Sorting orders the values and loses none. */
  lemma {:induction false} SortIsSorted(s: seq<real>)
    ensures Sorted(Sort(s)) && multiset(Sort(s)) == multiset(s)
  {
    if s == [] {
    } else {
      SortIsSorted(s[1..]);
      InsertSorted(s[0], Sort(s[1..]));
      InsertMembers(s[0], Sort(s[1..]));
      assert s == [s[0]] + s[1..];
    }
  }

  // ---------------------------------------------------------------- domination

  predicate Dominated(a: seq<real>, b: seq<real>) {
    |a| == |b| && forall i :: 0 <= i < |a| ==> a[i] <= b[i]
  }

  lemma DominatedCons(x: real, a: seq<real>, y: real, b: seq<real>)
    requires x <= y && Dominated(a, b)
    ensures Dominated([x] + a, [y] + b)
  {
  }

  lemma DominatedTail(a: seq<real>, b: seq<real>)
    requires Dominated(a, b) && a != []
    ensures b != [] && a[0] <= b[0] && Dominated(a[1..], b[1..])
  {
  }

  lemma SortedTail(s: seq<real>)
    requires Sorted(s) && s != []
    ensures Sorted(s[1..]) && s == [s[0]] + s[1..] && (s[1..] == [] || s[0] <= s[1..][0])
  {
  }

  lemma {:induction false} InsertDominated(x: real, a: seq<real>, y: real, b: seq<real>)
    requires x <= y && Dominated(a, b) && Sorted(a) && Sorted(b)
    ensures Dominated(Insert(x, a), Insert(y, b))
    decreases |a|
  {
    if a == [] {
    } else {
      DominatedTail(a, b);
      SortedTail(a);
      SortedTail(b);
      hide Dominated, Sorted;
      var a', b' := a[1..], b[1..];
      InsertAtFront(a[0], a');
      InsertAtFront(b[0], b');
      if x <= a[0] && y > b[0] {
        InsertDominated(a[0], a', y, b');
        DominatedCons(x, a, b[0], Insert(y, b'));
      } else if x > a[0] && y <= b[0] {
        InsertDominated(x, a', b[0], b');
        DominatedCons(a[0], Insert(x, a'), y, b);
      } else if x > a[0] {
        InsertDominated(x, a', y, b');
        DominatedCons(a[0], Insert(x, a'), b[0], Insert(y, b'));
      } else {
        DominatedCons(x, a, y, b);
      }
    }
  }

  lemma InsertAtFront(x: real, s: seq<real>)
    requires s == [] || x <= s[0]
    ensures Insert(x, s) == [x] + s
  {
  }

  /** Pointwise domination survives sorting. */
  lemma {:induction false} SortDominated(a: seq<real>, b: seq<real>)
    requires Dominated(a, b)
    ensures Dominated(Sort(a), Sort(b))
  {
    if a == [] {
    } else {
      SortDominated(a[1..], b[1..]);
      SortIsSorted(a[1..]);
      SortIsSorted(b[1..]);
      InsertDominated(a[0], Sort(a[1..]), b[0], Sort(b[1..]));
    }
  }

  // ---------------------------------------------------------------- ranks

  function CountBelow(s: seq<real>, v: real): nat {
    if s == [] then 0 else CountBelow(s[1..], v) + (if s[0] < v then 1 else 0)
  }

  function CountUpTo(s: seq<real>, v: real): nat {
    if s == [] then 0 else CountUpTo(s[1..], v) + (if s[0] <= v then 1 else 0)
  }

  lemma {:induction false} CountsOfSorted(s: seq<real>, k: nat)
    requires Sorted(s) && k < |s|
    ensures CountBelow(s, s[k]) <= k < CountUpTo(s, s[k])
    decreases |s|
  {
    var v := s[k];
    if k == 0 {
      NoneBelow(s, v);
    } else {
      CountsOfSorted(s[1..], k - 1);
    }
  }

  lemma {:induction false} NoneBelow(s: seq<real>, v: real)
    requires AtLeast(v, s)
    ensures CountBelow(s, v) == 0
  {
    if s == [] {
    } else {
      NoneBelow(s[1..], v);
    }
  }

  lemma {:induction false} CountsInsert(x: real, s: seq<real>, v: real)
    ensures CountBelow(Insert(x, s), v) == CountBelow(s, v) + (if x < v then 1 else 0)
    ensures CountUpTo(Insert(x, s), v) == CountUpTo(s, v) + (if x <= v then 1 else 0)
  {
    if s == [] || x <= s[0] {
      assert ([x] + s)[1..] == s;
    } else {
      CountsInsert(x, s[1..], v);
      assert Insert(x, s)[1..] == Insert(x, s[1..]);
    }
  }

  lemma {:induction false} CountsSort(s: seq<real>, v: real)
    ensures CountBelow(Sort(s), v) == CountBelow(s, v)
    ensures CountUpTo(Sort(s), v) == CountUpTo(s, v)
  {
    if s == [] {
    } else {
      CountsSort(s[1..], v);
      CountsInsert(s[0], Sort(s[1..]), v);
    }
  }

  /** `v` is the value of rank `k`: at most `k` values are smaller, more than `k` do not exceed it. */
  predicate HasRank(s: seq<real>, k: nat, v: real) { CountBelow(s, v) <= k < CountUpTo(s, v) }

  lemma {:induction false} CountsMonotone(s: seq<real>, v: real, w: real)
    requires v < w
    ensures CountUpTo(s, v) <= CountBelow(s, w)
  {
    if s == [] {
    } else {
      CountsMonotone(s[1..], v, w);
    }
  }

  /** The sorted value at `k` is the one and only value of rank `k`; it does not depend on the
      order in which the values were measured. */
  lemma RankIsSortedValue(s: seq<real>, k: nat, v: real)
    requires k < |s|
    ensures HasRank(s, k, v) <==> v == Sort(s)[k]
  {
    SortIsSorted(s);
    var u := Sort(s)[k];
    CountsOfSorted(Sort(s), k);
    CountsSort(s, u);
    if HasRank(s, k, v) {
      if v < u { CountsMonotone(s, v, u); }
      if u < v { CountsMonotone(s, u, v); }
    }
  }

  // ---------------------------------------------------------------- percentiles and medians

  /** `min(len - 1, int(len * fraction))` */
  function RankOf(n: nat, fraction: real): (k: nat)
    requires n > 0 && 0.0 <= fraction
    ensures k < n && k as real <= n as real * fraction
    ensures k == n - 1 || n as real * fraction < k as real + 1.0
  {
    var k := (n as real * fraction).Floor;
    assert n as real * fraction >= 0.0;
    if k < n then k else n - 1
  }

  /** `percentile`: zero for no values. */
  function Percentile(values: seq<real>, fraction: real): real
    requires 0.0 <= fraction
  {
    if values == [] then 0.0 else Sort(values)[RankOf(|values|, fraction)]
  }

  /** The middle value, or the mean of the two middle values. */
  function Median(values: seq<real>): real
    requires values != []
  {
    var s, m := Sort(values), |values| / 2;
    if |values| % 2 == 1 then s[m] else (s[m - 1] + s[m]) / 2.0
  }

  function Minimum(values: seq<real>): real
    requires values != []
  { Sort(values)[0] }

  function Maximum(values: seq<real>): real
    requires values != []
  { Sort(values)[|values| - 1] }

  datatype Summary = Summary(min: real, p50: real, p95: real, p99: real, max: real)

  predicate Ordered(d: Summary) { d.min <= d.p50 <= d.p95 <= d.p99 <= d.max }

  /** `distribution` */
  function Distribution(values: seq<real>): Summary
    requires values != []
  {
    Summary(Minimum(values), Median(values), Percentile(values, 0.95), Percentile(values, 0.99), Maximum(values))
  }

  lemma RanksIncrease(n: nat)
    requires n > 0
    ensures n / 2 <= RankOf(n, 0.95) <= RankOf(n, 0.99)
  {
    var x, y := (n as real * 0.95), (n as real * 0.99);
    assert x <= y;
    if n >= 2 {
      assert (n / 2) as real <= x;
      assert n / 2 <= x.Floor;
    }
  }

  /** Where the five statistics sit: ranks in one sorted list. */
  lemma MedianBetween(values: seq<real>)
    requires values != []
    ensures Sort(values)[0] <= Median(values) <= Sort(values)[|values| / 2]
  {
    SortIsSorted(values);
  }

  /** Twice the median is the sum of the values of the two middle ranks, which coincide for an
      odd number of values. */
  lemma MedianIsMiddle(values: seq<real>, lower: real, upper: real)
    requires values != []
    requires HasRank(values, (|values| - 1) / 2, lower) && HasRank(values, |values| / 2, upper)
    ensures 2.0 * Median(values) == lower + upper
  {
    hide Sort, HasRank;
    RankIsSortedValue(values, (|values| - 1) / 2, lower);
    RankIsSortedValue(values, |values| / 2, upper);
  }

  /** The extremes are measured values that bound all the others. */
  lemma ExtremesBound(values: seq<real>)
    requires values != []
    ensures Minimum(values) in values && Maximum(values) in values
    ensures forall i :: 0 <= i < |values| ==> Minimum(values) <= values[i] <= Maximum(values)
  {
    hide Sort;
    SortIsSorted(values);
    var s := Sort(values);
    assert s[0] in multiset(s) && s[|s| - 1] in multiset(s);
    forall i | 0 <= i < |values| ensures s[0] <= values[i] <= s[|s| - 1] {
      assert values[i] in multiset(values);
      var k :| 0 <= k < |s| && s[k] == values[i];
    }
  }

  /** Every non-empty list of measurements has an ordered summary. */
  lemma DistributionOrdered(values: seq<real>)
    requires values != []
    ensures Ordered(Distribution(values))
  {
    hide Sort;
    SortIsSorted(values);
    MedianBetween(values);
    RanksIncrease(|values|);
  }

  /** A summary does not depend on the order of the measurements. */
  lemma DistributionOfPermutation(a: seq<real>, b: seq<real>)
    requires a != [] && multiset(a) == multiset(b)
    ensures b != [] && Distribution(a) == Distribution(b)
  {
    hide Sort, Sorted;
    SortIsSorted(a);
    SortIsSorted(b);
    SortedUnique(Sort(a), Sort(b));
    assert |Sort(a)| == |a| && |Sort(b)| == |b|;
  }

  lemma LeastHead(s: seq<real>, t: seq<real>)
    requires Sorted(t) && s != [] && multiset(s) == multiset(t)
    ensures t != [] && t[0] <= s[0]
  {
    assert s[0] in multiset(s);
    var i :| 0 <= i < |t| && t[i] == s[0];
  }

  lemma TailMembers(s: seq<real>)
    requires s != []
    ensures multiset(s[1..]) == multiset(s) - multiset{s[0]}
  {
    assert s == [s[0]] + s[1..];
  }

  lemma {:induction false} SortedUnique(s: seq<real>, t: seq<real>)
    requires Sorted(s) && Sorted(t) && multiset(s) == multiset(t)
    ensures s == t
    decreases |s|
  {
    if s != [] {
      LeastHead(s, t);
      LeastHead(t, s);
      TailMembers(s);
      TailMembers(t);
      SortedUnique(s[1..], t[1..]);
      assert s == [s[0]] + s[1..] && t == [t[0]] + t[1..];
    } else {
      assert |multiset(t)| == |t|;
    }
  }

  // ---------------------------------------------------------------- the statistics, by counting

  /** `percentile` is the value whose rank is the scaled length, rounded down, or else the last. */
  lemma PercentileHasRank(values: seq<real>, fraction: real, k: nat, v: real)
    requires 0.0 <= fraction && k < |values| && k as real <= |values| as real * fraction
    requires k == |values| - 1 || |values| as real * fraction < k as real + 1.0
    ensures HasRank(values, k, v) <==> v == Percentile(values, fraction)
  {
    hide Sort, HasRank;
    RankIsSortedValue(values, k, v);
    assert k == RankOf(|values|, fraction);
  }

  predicate Least(values: seq<real>, v: real) { v in values && AtLeast(v, values) }

  predicate Greatest(values: seq<real>, v: real) {
    v in values && forall i :: 0 <= i < |values| ==> values[i] <= v
  }

  predicate MiddlePair(values: seq<real>, lower: real, upper: real)
    requires values != []
  { HasRank(values, (|values| - 1) / 2, lower) && HasRank(values, |values| / 2, upper) }

  /** `v` is half way between the values of the two middle ranks. */
  ghost predicate Middle(values: seq<real>, v: real)
    requires values != []
  { exists lower, upper :: MiddlePair(values, lower, upper) && v == (lower + upper) / 2.0 }

  lemma HundredthsRank(n: nat, k: nat, fraction: real)
    requires n > 0 && k < 100 && fraction == k as real / 100.0
    ensures n * k / 100 < n
    ensures (n * k / 100) as real <= n as real * fraction < (n * k / 100) as real + 1.0
  {
    var q := n * k / 100;
    assert 100 * q <= n * k < 100 * q + 100;
    assert n * k <= n * 99 by { assert n * (99 - k) >= 0; }
    assert n as real * fraction == (n * k) as real / 100.0;
  }

  lemma PercentMeans(values: seq<real>, k: nat, fraction: real, v: real)
    requires values != [] && k < 100 && fraction == k as real / 100.0
    ensures HasRank(values, |values| * k / 100, v) <==> v == Percentile(values, fraction)
  {
    hide *;
    HundredthsRank(|values|, k, fraction);
    PercentileHasRank(values, fraction, |values| * k / 100, v);
  }

  lemma LeastMeans(values: seq<real>, v: real)
    requires values != []
    ensures (Least(values, v) <==> v == Minimum(values)) && (Greatest(values, v) <==> v == Maximum(values))
  {
    hide Minimum, Maximum;
    ExtremesBound(values);
  }

  lemma MiddleMeans(values: seq<real>, v: real)
    requires values != []
    ensures Middle(values, v) <==> v == Median(values)
  {
    hide Sort, HasRank, Median;
    var n := |values|;
    var lower, upper := Sort(values)[(n - 1) / 2], Sort(values)[n / 2];
    RankIsSortedValue(values, (n - 1) / 2, lower);
    RankIsSortedValue(values, n / 2, upper);
    MedianIsMiddle(values, lower, upper);
    if Middle(values, v) {
      var a, b :| MiddlePair(values, a, b) && v == (a + b) / 2.0;
      MedianIsMiddle(values, a, b);
    }
    assert MiddlePair(values, lower, upper);
  }

  /** The five statistics, said by membership and counting alone. */
  ghost predicate SummaryOf(values: seq<real>, d: Summary)
    requires values != []
  {
    && Least(values, d.min) && Middle(values, d.p50) && HasRank(values, |values| * 95 / 100, d.p95)
    && HasRank(values, |values| * 99 / 100, d.p99) && Greatest(values, d.max)
  }

  /** `distribution` gives the one summary that is meant. */
  lemma DistributionMeans(values: seq<real>, d: Summary)
    requires values != []
    ensures SummaryOf(values, d) <==> d == Distribution(values)
  {
    hide Least, Middle, HasRank, Greatest, Minimum, Median, Percentile, Maximum;
    LeastMeans(values, d.min);
    MiddleMeans(values, d.p50);
    PercentMeans(values, 95, 0.95, d.p95);
    PercentMeans(values, 99, 0.99, d.p99);
    LeastMeans(values, d.max);
  }
}
