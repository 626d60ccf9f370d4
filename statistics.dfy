/**
 * Percentile summaries of a metric's history: the history is filtered to its
 * strictly positive values, sorted ascending, and p50, p90 and p99 are read
 * off it by linear-rank interpolation. Arithmetic is over `real`.
 */
module Statistics {

  predicate IsSorted(s: seq<real>) {
    forall i, j :: 0 <= i <= j < |s| ==> s[i] <= s[j]
  }

  /** `x` lies between `a` and `b`, whichever of the two is smaller. */
  predicate Between(x: real, a: real, b: real) {
    (a <= x <= b) || (b <= x <= a)
  }

  /** The fractional rank (pct / 100) * (n - 1) of a percentile among `n` values. */
  function Rank(n: nat, pct: nat): real {
    (pct as real / 100.0) * ((n - 1) as real)
  }

  /** The rank of a percentile of at most 100 falls inside the index range. */
  lemma RankBounds(n: nat, pct: nat)
    requires 0 < n && pct <= 100
    ensures 0.0 <= Rank(n, pct) <= (n - 1) as real
  {
    var a := pct as real / 100.0;
    var b := (n - 1) as real;
    ProductNonNegative(a, b);
    ProductNonNegative(1.0 - a, b);
    assert b - a * b == (1.0 - a) * b;
  }

  /** The product of two non-negative reals is non-negative. */
  lemma ProductNonNegative(x: real, y: real)
    requires 0.0 <= x && 0.0 <= y
    ensures 0.0 <= x * y
  {
  }

  /** A larger percentile has a larger (or equal) rank. */
  lemma RankMonotone(n: nat, p: nat, q: nat)
    requires 0 < n && p <= q
    ensures Rank(n, p) <= Rank(n, q)
  {
    var b := (n - 1) as real;
    ProductNonNegative((q - p) as real / 100.0, b);
    assert Rank(n, q) - Rank(n, p) == ((q - p) as real / 100.0) * b;
  }

  /** Rounding a real up to the nearest integer. */
  function Ceil(r: real): (k: int)
    ensures r <= k as real < r + 1.0
    ensures k == r.Floor <==> r.Floor as real == r
    ensures k <= r.Floor + 1
  {
    if r.Floor as real == r then r.Floor else r.Floor + 1
  }

  /** The lower neighbour index of the rank: its floor. */
  function LowIndex(n: nat, pct: nat): (k: nat)
    requires 0 < n && pct <= 100
    ensures k < n
    ensures k as real <= Rank(n, pct) < k as real + 1.0
  {
    RankBounds(n, pct);
    Rank(n, pct).Floor
  }

  /** The upper neighbour index of the rank: its ceiling; equal to the lower one exactly when the rank is whole. */
  function HighIndex(n: nat, pct: nat): (k: nat)
    requires 0 < n && pct <= 100
    ensures LowIndex(n, pct) <= k < n
    ensures k <= LowIndex(n, pct) + 1
    ensures k == LowIndex(n, pct) <==> Rank(n, pct) == LowIndex(n, pct) as real
  {
    RankBounds(n, pct);
    Ceil(Rank(n, pct))
  }

  /** Linear interpolation with a weight in [0, 1] stays between its two ends. */
  lemma InterpolationBetween(a: real, b: real, w: real)
    requires 0.0 <= w <= 1.0
    ensures Between(a * (1.0 - w) + b * w, a, b)
  {
    assert a * (1.0 - w) + b * w == a + w * (b - a);
    if a <= b {
      ProductNonNegative(w, b - a);
      ProductNonNegative(1.0 - w, b - a);
      assert (b - a) - w * (b - a) == (1.0 - w) * (b - a);
    } else {
      ProductNonNegative(w, a - b);
      ProductNonNegative(1.0 - w, a - b);
      assert w * (b - a) == -(w * (a - b));
      assert (a - b) - w * (a - b) == (1.0 - w) * (a - b);
    }
  }

  /** Between an ascending pair, a larger weight gives a larger interpolated value. */
  lemma InterpolationMonotone(a: real, b: real, w1: real, w2: real)
    requires a <= b && w1 <= w2
    ensures a * (1.0 - w1) + b * w1 <= a * (1.0 - w2) + b * w2
  {
    ProductNonNegative(w2 - w1, b - a);
    assert (a * (1.0 - w2) + b * w2) - (a * (1.0 - w1) + b * w1) == (w2 - w1) * (b - a);
  }

  /**
   * The pct-th percentile of an ascending sequence by linear-rank
   * interpolation between its two neighbouring order statistics; 0 for an
   * empty sequence.
   */
  function Percentile(sorted: seq<real>, pct: nat): (r: real)
    requires pct <= 100
    ensures sorted == [] ==> r == 0.0
    ensures |sorted| == 1 ==> r == sorted[0]
    ensures |sorted| > 0 ==>
      Between(r, sorted[LowIndex(|sorted|, pct)], sorted[HighIndex(|sorted|, pct)])
    ensures |sorted| > 0 && pct == 0 ==> r == sorted[0]
    ensures |sorted| > 0 && pct == 100 ==> r == sorted[|sorted| - 1]
    ensures |sorted| > 0 ==>
      var low, high := LowIndex(|sorted|, pct), HighIndex(|sorted|, pct);
      r - sorted[low] == (Rank(|sorted|, pct) - low as real) * (sorted[high] - sorted[low])
  {
    if sorted == [] then 0.0
    else
      var n := |sorted|;
      var rank := Rank(n, pct);
      var low := LowIndex(n, pct);
      var high := HighIndex(n, pct);
      if low == high then sorted[low]
      else
        var weight := rank - low as real;
        InterpolationBetween(sorted[low], sorted[high], weight);
        InterpolationOffset(sorted[low], sorted[high], weight);
        sorted[low] * (1.0 - weight) + sorted[high] * weight
  }

  /** A linear interpolation exceeds its lower end by the weight times the span. */
  lemma InterpolationOffset(a: real, b: real, w: real)
    ensures (a * (1.0 - w) + b * w) - a == w * (b - a)
  {
  }

  /**
   * Between two values the percentile moves linearly: pct percent of the way
   * from the first to the second (so [1, 3] at pct 50 gives 2).
   */
  lemma PercentileOfPair(a: real, b: real, pct: nat)
    requires pct <= 100
    ensures Percentile([a, b], pct) == a + (pct as real / 100.0) * (b - a)
  {
    var w := pct as real / 100.0;
    assert Rank(2, pct) == w;
    var low, high := LowIndex(2, pct), HighIndex(2, pct);
    if low == 1 {
      assert pct == 100;
    } else if high == 0 {
      assert w == 0.0;
    }
  }

  /** On an ascending input the percentile lies between its neighbours, hence within [min, max]. */
  lemma PercentileInRange(sorted: seq<real>, pct: nat)
    requires IsSorted(sorted) && 0 < |sorted| && pct <= 100
    ensures sorted[LowIndex(|sorted|, pct)] <= Percentile(sorted, pct) <= sorted[HighIndex(|sorted|, pct)]
    ensures sorted[0] <= Percentile(sorted, pct) <= sorted[|sorted| - 1]
  {
    var n := |sorted|;
    var low, high := LowIndex(n, pct), HighIndex(n, pct);
    assert sorted[0] <= sorted[low] <= sorted[high] <= sorted[n - 1];
  }

  /** On an ascending input the percentile is monotone in pct. */
  lemma PercentileMonotone(sorted: seq<real>, p: nat, q: nat)
    requires IsSorted(sorted) && 0 < |sorted| && p <= q <= 100
    ensures Percentile(sorted, p) <= Percentile(sorted, q)
  {
    var n := |sorted|;
    RankMonotone(n, p, q);
    var l1, h1 := LowIndex(n, p), HighIndex(n, p);
    var l2, h2 := LowIndex(n, q), HighIndex(n, q);
    PercentileInRange(sorted, p);
    PercentileInRange(sorted, q);
    if l1 < l2 {
      assert sorted[h1] <= sorted[l2];
    } else if l1 != h1 {
      assert l1 == l2 && h1 == l1 + 1;
      assert Rank(n, q) > l2 as real;
      assert h2 == h1;
      InterpolationMonotone(sorted[l1], sorted[h1], Rank(n, p) - l1 as real, Rank(n, q) - l1 as real);
    }
  }

  /** The strictly positive values of `s`, in order. */
  function Positives(s: seq<real>): (r: seq<real>)
    ensures forall i :: 0 <= i < |r| ==> r[i] > 0.0
    ensures forall x :: multiset(r)[x] == if x > 0.0 then multiset(s)[x] else 0
  {
    if s == [] then []
    else
      assert s == [s[0]] + s[1..];
      (if s[0] > 0.0 then [s[0]] else []) + Positives(s[1..])
  }

  /** `x` placed into an ascending sequence, keeping it ascending. */
  function Insert(x: real, s: seq<real>): (r: seq<real>)
    requires IsSorted(s)
    ensures IsSorted(r)
    ensures multiset(r) == multiset(s) + multiset{x}
  {
    if s == [] || x <= s[0] then [x] + s
    else
      var tail := Insert(x, s[1..]);
      assert s == [s[0]] + s[1..];
      assert forall k :: 0 <= k < |tail| ==> s[0] <= tail[k] by {
        forall k | 0 <= k < |tail| ensures s[0] <= tail[k] {
          assert tail[k] in multiset(tail);
          assert tail[k] == x || tail[k] in multiset(s[1..]);
        }
      }
      [s[0]] + tail
  }

  /** The values of `s` in ascending order. */
  function Sort(s: seq<real>): (r: seq<real>)
    ensures IsSorted(r)
    ensures multiset(r) == multiset(s)
  {
    if s == [] then []
    else
      assert s == [s[0]] + s[1..];
      Insert(s[0], Sort(s[1..]))
  }

  /** Two ascending sequences with the same values are equal: sorting depends only on the values. */
  lemma {:induction false} SortedUnique(a: seq<real>, b: seq<real>)
    requires IsSorted(a) && IsSorted(b) && multiset(a) == multiset(b)
    ensures a == b
  {
    if a != [] {
      assert |b| == |a| by { assert |multiset(a)| == |multiset(b)|; }
      HeadIsMinimum(a, b);
      HeadIsMinimum(b, a);
      assert a == [a[0]] + a[1..];
      assert b == [b[0]] + b[1..];
      assert a[0] == b[0];
      assert multiset(a[1..]) == multiset(a) - multiset{a[0]};
      assert multiset(b[1..]) == multiset(b) - multiset{b[0]};
      SortedUnique(a[1..], b[1..]);
    }
  }

  /** The head of an ascending sequence is at most any value of a sequence with the same values. */
  lemma HeadIsMinimum(a: seq<real>, b: seq<real>)
    requires IsSorted(a) && a != [] && b != [] && multiset(a) == multiset(b)
    ensures a[0] <= b[0]
  {
    assert b[0] in multiset(b);
    assert b[0] in a;
  }

  /** The three displayed percentiles of one metric. */
  datatype Summary = Summary(p50: real, p90: real, p99: real)

  /**
   * The percentile summary of a history: the 50th, 90th and 99th percentiles
   * of its strictly positive values in ascending order; all zero when there
   * is none.
   */
  function Summarize(history: seq<real>): (t: Summary)
    ensures forall s :: IsSorted(s) && multiset(s) == multiset(Positives(history)) && s != [] ==>
      t == Summary(Percentile(s, 50), Percentile(s, 90), Percentile(s, 99))
    ensures 0.0 <= t.p50 <= t.p90 <= t.p99
    ensures (forall i :: 0 <= i < |history| ==> history[i] <= 0.0) <==> t == Summary(0.0, 0.0, 0.0)
    ensures t.p50 > 0.0 ==> exists i :: 0 <= i < |history| && 0.0 < history[i] <= t.p50
    ensures t.p99 > 0.0 ==> exists i :: 0 <= i < |history| && t.p99 <= history[i]
  {
    var sorted := Sort(Positives(history));
    AnySortingOfPositives(history);
    if sorted == [] then
      NoPositives(history);
      Summary(0.0, 0.0, 0.0)
    else
      SortedPositivesMembers(history);
      SummaryBounds(history, sorted);
      Summary(Percentile(sorted, 50), Percentile(sorted, 90), Percentile(sorted, 99))
  }

  /**
   * The three percentiles of an ascending arrangement of a history's positive
   * values are ordered, positive, and bracketed by samples of the history.
   */
  lemma SummaryBounds(history: seq<real>, sorted: seq<real>)
    requires IsSorted(sorted) && sorted != []
    requires forall x :: x in sorted <==> x in history && x > 0.0
    ensures 0.0 < Percentile(sorted, 50) <= Percentile(sorted, 90) <= Percentile(sorted, 99)
    ensures exists i :: 0 <= i < |history| && 0.0 < history[i] <= Percentile(sorted, 50)
    ensures exists i :: 0 <= i < |history| && Percentile(sorted, 99) <= history[i]
  {
    PercentileMonotone(sorted, 50, 90);
    PercentileMonotone(sorted, 90, 99);
    PercentileInRange(sorted, 50);
    PercentileInRange(sorted, 99);
    SortedEndsAreSamples(history, sorted);
  }

  /** Any ascending arrangement of the positive values is the one `Sort` gives. */
  lemma AnySortingOfPositives(history: seq<real>)
    ensures forall s :: IsSorted(s) && multiset(s) == multiset(Positives(history)) ==> s == Sort(Positives(history))
  {
    forall s | IsSorted(s) && multiset(s) == multiset(Positives(history))
      ensures s == Sort(Positives(history))
    {
      SortedUnique(s, Sort(Positives(history)));
    }
  }

  /** Sorting the positives leaves nothing only when the history has no positive value. */
  lemma NoPositives(history: seq<real>)
    requires Sort(Positives(history)) == []
    ensures forall i :: 0 <= i < |history| ==> history[i] <= 0.0
  {
    SortedPositivesMembers(history);
    forall i | 0 <= i < |history|
      ensures history[i] <= 0.0
    {
      assert history[i] in history;
    }
  }

  /** The sorted positives hold exactly the positive values of the history. */
  lemma SortedPositivesMembers(history: seq<real>)
    ensures forall x :: x in Sort(Positives(history)) <==> x in history && x > 0.0
  {
    var pos := Positives(history);
    forall x
      ensures x in Sort(pos) <==> x in history && x > 0.0
    {
      assert x in Sort(pos) <==> x in multiset(Sort(pos));
      assert x in pos <==> x in multiset(pos);
      assert x in history <==> x in multiset(history);
    }
  }

  /** The ends of an ascending sequence of the positive samples are themselves positive samples. */
  lemma SortedEndsAreSamples(history: seq<real>, sorted: seq<real>)
    requires sorted != []
    requires forall x :: x in sorted <==> x in history && x > 0.0
    ensures 0.0 < sorted[0]
    ensures exists i :: 0 <= i < |history| && history[i] == sorted[0]
    ensures exists i :: 0 <= i < |history| && history[i] == sorted[|sorted| - 1]
  {
    assert sorted[0] in sorted && sorted[|sorted| - 1] in sorted;
  }

  /**
   * The summary depends only on how often each positive value occurs in the
   * history: not on the order of arrival, nor on zero or negative samples.
   */
  lemma SummaryDependsOnPositiveValues(h1: seq<real>, h2: seq<real>)
    requires forall x :: x > 0.0 ==> multiset(h1)[x] == multiset(h2)[x]
    ensures Summarize(h1) == Summarize(h2)
  {
    var p1, p2 := Positives(h1), Positives(h2);
    assert multiset(p1) == multiset(p2) by {
      forall x ensures multiset(p1)[x] == multiset(p2)[x] {
      }
    }
    SortedUnique(Sort(p1), Sort(p2));
  }

  /** Reordering the history does not change its summary. */
  lemma SummaryIgnoresOrder(h1: seq<real>, h2: seq<real>)
    requires multiset(h1) == multiset(h2)
    ensures Summarize(h1) == Summarize(h2)
  {
    SummaryDependsOnPositiveValues(h1, h2);
  }

  /** A zero or negative sample added to the history does not change its summary. */
  lemma SummaryIgnoresNonPositive(h: seq<real>, x: real)
    requires x <= 0.0
    ensures Summarize(h + [x]) == Summarize(h)
  {
    assert multiset(h + [x]) == multiset(h) + multiset{x};
    SummaryDependsOnPositiveValues(h + [x], h);
  }
}
