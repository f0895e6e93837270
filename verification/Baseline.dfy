/** The median / MAD baseline: a detector that a minority of spikes can neither trigger nor blind. */
module Baseline {
  import opened Order

  predicate AtMost(x: real, y: real) {
    x <= y
  }

  function Abs(x: real): real { if x < 0.0 then -x else x }
  function Max(x: real, y: real): real { if y > x then y else x }

  /** The middle of a sorted list. */
  function Middle(c: seq<real>): real {
    if |c| == 0 then 0.0
    else
      var m := |c| / 2;
      if |c| % 2 == 0 then (c[m - 1] + c[m]) / 2.0 else c[m]
  }

  function Median(v: seq<real>): real {
    Middle(Sort(v, AtMost))
  }

  lemma AtMostIsTotalPreorder()
    ensures TotalPreorder(AtMost)
  {
  }

  /** `sort.Float64s` on a private copy. */
  method ComputeMedian(v: seq<real>) returns (m: real)
    ensures m == Median(v)
  {
    if |v| == 0 {
      return 0.0;
    }
    var c := new real[|v|](i requires 0 <= i < |v| => v[i]);
    assert c[..] == v;
    AtMostIsTotalPreorder();
    SortSlice(c, AtMost);
    SortSorts(v, AtMost);
    SortedUnique(c[..], Sort(v, AtMost), AtMost);
    var half := c.Length / 2;
    if c.Length % 2 == 0 {
      return (c[half - 1] + c[half]) / 2.0;
    }
    return c[half];
  }

  lemma MedianIgnoresOrder(v: seq<real>, w: seq<real>)
    requires multiset(v) == multiset(w)
    ensures Median(v) == Median(w)
  {
    AtMostIsTotalPreorder();
    SortSorts(v, AtMost);
    SortSorts(w, AtMost);
    SortedUnique(Sort(v, AtMost), Sort(w, AtMost), AtMost);
  }

  /** `c` lists the values of `v` in ascending order. */
  ghost predicate Arranges(c: seq<real>, v: seq<real>) {
    multiset(c) == multiset(v) && forall i, j :: 0 <= i < j < |c| ==> c[i] <= c[j]
  }

  lemma MiddleMeaning(c: seq<real>)
    ensures |c| == 0 ==> Middle(c) == 0.0
    ensures |c| % 2 == 1 ==> Middle(c) == c[(|c| - 1) / 2]
    ensures |c| > 0 && |c| % 2 == 0 ==> Middle(c) + Middle(c) == c[|c| / 2 - 1] + c[|c| / 2]
  {
  }

  /** The median of a list is the value in the middle of its sorted arrangement, and halfway between
      the two in the middle when their number is even; of no values it is zero. */
  lemma MedianMeaning(v: seq<real>, c: seq<real>)
    requires Arranges(c, v)
    ensures |c| == |v|
    ensures |v| == 0 ==> Median(v) == 0.0
    ensures |v| % 2 == 1 ==> Median(v) == c[(|v| - 1) / 2]
    ensures |v| > 0 && |v| % 2 == 0 ==> Median(v) + Median(v) == c[|v| / 2 - 1] + c[|v| / 2]
  {
    assert |c| == |multiset(c)| == |multiset(v)| == |v|;
    AtMostIsTotalPreorder();
    SortSorts(v, AtMost);
    SortedUnique(c, Sort(v, AtMost), AtMost);
    assert Median(v) == Middle(c);
    hide *;
    MiddleMeaning(c);
  }

  function Negated(v: seq<real>): (w: seq<real>)
    ensures |w| == |v|
  {
    seq(|v|, i requires 0 <= i < |v| => -v[i])
  }

  function Backwards(v: seq<real>): (w: seq<real>)
    ensures |w| == |v|
  {
    seq(|v|, i requires 0 <= i < |v| => v[|v| - 1 - i])
  }

  lemma {:induction false} NegatedMultiset(v: seq<real>, x: real)
    ensures multiset(Negated(v))[-x] == multiset(v)[x]
  {
    if v != [] {
      var front, last := v[..|v| - 1], v[|v| - 1];
      NegatedMultiset(front, x);
      assert v == front + [last] && Negated(v) == Negated(front) + [-last];
    }
  }

  lemma {:induction false} BackwardsMultiset(v: seq<real>)
    ensures multiset(Backwards(v)) == multiset(v)
  {
    if v != [] {
      var front, last := v[..|v| - 1], v[|v| - 1];
      BackwardsMultiset(front);
      assert v == front + [last] && Backwards(v) == [last] + Backwards(front);
    }
  }

  lemma NegatedArranges(c: seq<real>, v: seq<real>)
    requires Arranges(c, v)
    ensures Arranges(Backwards(Negated(c)), Negated(v))
  {
    var d := Backwards(Negated(c));
    BackwardsMultiset(Negated(c));
    forall i, j | 0 <= i < j < |d| ensures d[i] <= d[j] { }
    hide Negated, Backwards;
    forall x ensures multiset(d)[x] == multiset(Negated(v))[x] {
      NegatedMultiset(c, -x);
      NegatedMultiset(v, -x);
      assert -(-x) == x;
    }
  }

  lemma BackwardsAt(c: seq<real>, i: nat)
    requires i < |c|
    ensures Backwards(Negated(c))[i] == -c[|c| - 1 - i]
  {
  }

  lemma MiddleNegates(v: seq<real>, c: seq<real>, w: seq<real>, d: seq<real>)
    requires Arranges(c, v) && Arranges(d, w) && d == Backwards(Negated(c)) && |w| == |v|
    ensures Median(w) == -Median(v)
  {
    hide *;
    MedianMeaning(v, c);
    MedianMeaning(w, d);
    var n := |v|;
    if n % 2 == 1 {
      BackwardsAt(c, (n - 1) / 2);
    } else if n > 0 {
      BackwardsAt(c, n / 2 - 1);
      BackwardsAt(c, n / 2);
    }
  }

  /** The median treats both sides alike. */
  lemma MedianNegates(v: seq<real>)
    ensures Median(Negated(v)) == -Median(v)
  {
    AtMostIsTotalPreorder();
    SortSorts(v, AtMost);
    var c := Sort(v, AtMost);
    assert Arranges(c, v);
    hide *;
    NegatedArranges(c, v);
    MiddleNegates(v, c, Negated(v), Backwards(Negated(c)));
  }

  // ---- counting ----

  /** How many values lie in [lo, hi]. */
  function Count(v: seq<real>, lo: real, hi: real): nat {
    if v == [] then 0 else Count(v[..|v| - 1], lo, hi) + if lo <= v[|v| - 1] <= hi then 1 else 0
  }

  lemma {:induction false} CountBounded(v: seq<real>, lo: real, hi: real)
    ensures Count(v, lo, hi) <= |v|
  {
    if v != [] { CountBounded(v[..|v| - 1], lo, hi); }
  }

  lemma {:induction false} CountSplit(v: seq<real>, k: nat, lo: real, hi: real)
    requires k <= |v|
    ensures Count(v, lo, hi) == Count(v[..k], lo, hi) + Count(v[k..], lo, hi)
  {
    if k == |v| {
      assert v[..k] == v;
    } else {
      CountSplit(v[..|v| - 1], k, lo, hi);
      assert v[..|v| - 1][..k] == v[..k] && v[..|v| - 1][k..] == v[k..][..|v| - k - 1];
    }
  }

  lemma {:induction false} CountNone(v: seq<real>, lo: real, hi: real)
    requires forall x :: x in v ==> !(lo <= x <= hi)
    ensures Count(v, lo, hi) == 0
  {
    if v != [] {
      var front, last := v[..|v| - 1], v[|v| - 1];
      assert last in v;
      forall x | x in front ensures x in v { }
      CountNone(front, lo, hi);
    }
  }

  lemma {:induction false} CountAll(v: seq<real>, lo: real, hi: real)
    requires forall x :: x in v ==> lo <= x <= hi
    ensures Count(v, lo, hi) == |v|
  {
    if v != [] {
      var front, last := v[..|v| - 1], v[|v| - 1];
      assert last in v;
      forall x | x in front ensures x in v { }
      CountAll(front, lo, hi);
    }
  }

  lemma CountSnoc(v: seq<real>, x: real, lo: real, hi: real)
    ensures Count(v + [x], lo, hi) == Count(v, lo, hi) + if lo <= x <= hi then 1 else 0
  {
    assert (v + [x])[..|v + [x]| - 1] == v;
  }

  lemma {:induction false} CountInsert(v: seq<real>, x: real, lo: real, hi: real)
    ensures Count(Insert(v, x, AtMost), lo, hi) == Count(v, lo, hi) + if lo <= x <= hi then 1 else 0
  {
    if v == [] {
      CountSnoc([], x, lo, hi);
      assert [] + [x] == [x];
    } else {
      var front, last := v[..|v| - 1], v[|v| - 1];
      if AtMost(last, x) {
        CountSnoc(v, x, lo, hi);
      } else {
        CountInsert(front, x, lo, hi);
        CountSnoc(Insert(front, x, AtMost), last, lo, hi);
      }
    }
  }

  lemma {:induction false} CountSort(v: seq<real>, lo: real, hi: real)
    ensures Count(Sort(v, AtMost), lo, hi) == Count(v, lo, hi)
  {
    if v != [] {
      CountSort(v[..|v| - 1], lo, hi);
      CountInsert(Sort(v[..|v| - 1], AtMost), v[|v| - 1], lo, hi);
    }
  }

  // ---- robustness of the median ----

  /** A value above the interval in a sorted list leaves at most the places before it for members
      of the interval; a value below it, the places after it. */
  lemma OutsideBounds(c: seq<real>, k: nat, lo: real, hi: real)
    requires Sorted(c, AtMost) && k < |c|
    ensures c[k] > hi ==> Count(c, lo, hi) <= k
    ensures c[k] < lo ==> Count(c, lo, hi) <= |c| - k - 1
  {
    if c[k] > hi {
      var rest := c[k..];
      CountSplit(c, k, lo, hi);
      CountBounded(c[..k], lo, hi);
      forall x | x in rest ensures x > hi {
        var j :| 0 <= j < |rest| && rest[j] == x;
        if j > 0 { assert AtMost(c[k], c[k + j]); }
      }
      CountNone(rest, lo, hi);
    }
    if c[k] < lo {
      var first := c[..k + 1];
      CountSplit(c, k + 1, lo, hi);
      CountBounded(c[k + 1..], lo, hi);
      forall x | x in first ensures x < lo {
        var j :| 0 <= j < k + 1 && c[j] == x;
        if j < k { assert AtMost(c[j], c[k]); }
      }
      CountNone(first, lo, hi);
    }
  }

  lemma MiddleWithinMajority(c: seq<real>, lo: real, hi: real)
    requires Sorted(c, AtMost) && 2 * Count(c, lo, hi) > |c|
    ensures lo <= Middle(c) <= hi
  {
    hide Count, Sorted;
    CountBounded(c, lo, hi);
    var m := |c| / 2;
    OutsideBounds(c, m, lo, hi);
    if |c| % 2 == 0 { OutsideBounds(c, m - 1, lo, hi); }
  }

  /** The median stays inside every interval that holds a strict majority of the values. */
  lemma MedianWithinMajority(v: seq<real>, lo: real, hi: real)
    requires 2 * Count(v, lo, hi) > |v|
    ensures lo <= Median(v) <= hi
  {
    hide Count, Sort, Middle;
    AtMostIsTotalPreorder();
    SortSorts(v, AtMost);
    CountSort(v, lo, hi);
    MiddleWithinMajority(Sort(v, AtMost), lo, hi);
  }

  lemma HalfAtMostMiddle(c: seq<real>, least: real)
    requires Sorted(c, AtMost) && forall x :: x in c ==> least <= x
    ensures 2 * Count(c, least, Middle(c)) >= |c|
  {
    hide Count;
    if c != [] {
      var k := if |c| % 2 == 0 then |c| / 2 - 1 else |c| / 2;
      assert c[k] <= Middle(c) by {
        if |c| % 2 == 0 { assert AtMost(c[k], c[k + 1]); }
      }
      var first := c[..k + 1];
      forall x | x in first ensures least <= x <= Middle(c) {
        var j :| 0 <= j < k + 1 && c[j] == x;
        assert c[j] in c;
        if j < k { assert AtMost(c[j], c[k]); }
      }
      CountAll(first, least, Middle(c));
      CountSplit(c, k + 1, least, Middle(c));
    }
  }

  /** At least half of the values are at most the median. */
  lemma HalfAtMostMedian(v: seq<real>, least: real)
    requires forall x :: x in v ==> least <= x
    ensures 2 * Count(v, least, Median(v)) >= |v|
  {
    var c := Sort(v, AtMost);
    assert multiset(c) == multiset(v);
    hide Count, Sort, Middle;
    AtMostIsTotalPreorder();
    SortSorts(v, AtMost);
    forall x | x in c ensures least <= x {
      assert x in multiset(c);
      assert x in multiset(v);
      assert x in v;
    }
    CountSort(v, least, Median(v));
    HalfAtMostMiddle(c, least);
  }

  // ---- the comparison ----

  datatype Baseline = Baseline(median: real, lower: real, upper: real, changePercent: real, anomalous: bool)

  function Deviations(history: seq<real>, mid: real): (dev: seq<real>)
    ensures |dev| == |history|
  {
    seq(|history|, i requires 0 <= i < |history| => Abs(history[i] - mid))
  }

  /** The median absolute deviation. */
  function RawMad(history: seq<real>): real {
    Median(Deviations(history, Median(history)))
  }

  /** A flat history falls back to five percent of the median, or a thousandth. */
  function Mad(history: seq<real>): real {
    if RawMad(history) == 0.0 then Max(Abs(Median(history)) * 0.05, 0.001) else RawMad(history)
  }

  function Change(mid: real, current: real): real {
    if mid == 0.0 then 0.0 else (current - mid) / Abs(mid) * 100.0
  }

  predicate Anomalous(history: seq<real>, current: real, minChangePercent: real) {
    && |history| >= 6
    && current > Median(history) + 3.0 * Mad(history)
    && Change(Median(history), current) >= minChangePercent
  }

  method CompareBaseline(history: seq<real>, current: real, minChangePercent: real) returns (b: Baseline)
    ensures b.median == Median(history)
    ensures b.anomalous <==> Anomalous(history, current, minChangePercent)
    ensures |history| >= 6 ==>
              && b.upper == Median(history) + 3.0 * Mad(history)
              && b.lower == (if Median(history) < 3.0 * Mad(history) then 0.0 else Median(history) - 3.0 * Mad(history))
    ensures |history| < 6 ==> b.upper == b.lower == b.changePercent == 0.0 && !b.anomalous
    ensures |history| >= 6 ==> b.changePercent == Change(Median(history), current)
  {
    hide Median;
    if |history| < 6 {
      var m := ComputeMedian(history);
      return Baseline(m, 0.0, 0.0, 0.0, false);
    }
    var mid := ComputeMedian(history);
    var dev := new real[|history|];
    for i := 0 to |history|
      invariant forall k :: 0 <= k < i ==> dev[k] == Abs(history[k] - mid)
    {
      dev[i] := Abs(history[i] - mid);
    }
    assert dev[..] == Deviations(history, mid);
    var mad := ComputeMedian(dev[..]);
    if mad == 0.0 {
      mad := Max(Abs(mid) * 0.05, 0.001);
    }
    var change := 0.0;
    if mid != 0.0 {
      change := (current - mid) / Abs(mid) * 100.0;
    }
    b := Baseline(mid, Max(0.0, mid - 3.0 * mad), mid + 3.0 * mad, change,
                  current > mid + 3.0 * mad && change >= minChangePercent);
  }

  /** The width of the band: the median of the distances from the median, and for a flat history five
      percent of the median but not less than a thousandth. */
  lemma BandMeaning(history: seq<real>, distances: seq<real>)
    requires |distances| == |history|
    requires var mid := Median(history);
             forall i :: 0 <= i < |history| ==>
               distances[i] == if history[i] < mid then mid - history[i] else history[i] - mid
    ensures Median(distances) != 0.0 ==> Mad(history) == Median(distances)
    ensures var mid, width := Median(history), Mad(history);
            Median(distances) == 0.0 ==>
              && width >= 0.001 && width * 20.0 >= mid && width * 20.0 >= -mid
              && (width == 0.001 || width * 20.0 == mid || width * 20.0 == -mid)
  {
    hide Median;
    assert distances == Deviations(history, Median(history));
  }

  /** The verdict: six samples, above three widths from the median, and a relative rise of the given
      percentage, which counts as none when the median is zero. */
  lemma VerdictMeaning(history: seq<real>, current: real, percent: real)
    ensures var mid := Median(history);
            Anomalous(history, current, percent) <==>
              && |history| >= 6 && current - mid > Mad(history) + Mad(history) + Mad(history)
              && (mid > 0.0 ==> 100.0 * (current - mid) >= percent * mid)
              && (mid < 0.0 ==> 100.0 * (current - mid) >= percent * -mid)
              && (mid == 0.0 ==> percent <= 0.0)
  {
    hide Median, Mad;
    var mid := Median(history);
    if mid != 0.0 { RelativeRise(current - mid, Abs(mid), percent); }
  }

  lemma RelativeRise(rise: real, base: real, percent: real)
    requires base > 0.0
    ensures rise / base * 100.0 >= percent <==> 100.0 * rise >= percent * base
  {
    var r := rise / base;
    assert r * base == rise;
    if r * 100.0 >= percent { TimesMonotone(percent, r * 100.0, base); }
    if 100.0 * rise >= percent * base && r * 100.0 < percent { TimesStrict(r * 100.0, percent, base); }
    assert r * 100.0 * base == 100.0 * (r * base);
  }

  lemma TimesMonotone(x: real, y: real, m: real)
    requires x <= y && m > 0.0
    ensures x * m <= y * m
  {
  }

  lemma TimesStrict(x: real, y: real, m: real)
    requires x < y && m > 0.0
    ensures x * m < y * m
  {
  }

  // ---- properties of the detector ----

  lemma {:induction false} DeviationCount(history: seq<real>, mid: real, width: real)
    ensures Count(Deviations(history, mid), 0.0, width) == Count(history, mid - width, mid + width)
  {
    if history != [] {
      DeviationCount(history[..|history| - 1], mid, width);
      assert Deviations(history, mid)[..|history| - 1] == Deviations(history[..|history| - 1], mid);
    }
  }

  lemma {:induction false} CountWider(v: seq<real>, lo: real, hi: real, lower: real, higher: real)
    requires lower <= lo && hi <= higher
    ensures Count(v, lo, hi) <= Count(v, lower, higher)
  {
    if v != [] { CountWider(v[..|v| - 1], lo, hi, lower, higher); }
  }

  /** At least half of the history lies within one median absolute deviation of the median, and so
      within the detector's band: three deviations, or three times their fallback. */
  lemma BandCoversHalf(history: seq<real>)
    ensures 2 * Count(history, Median(history) - 3.0 * Mad(history), Median(history) + 3.0 * Mad(history)) >= |history|
    ensures 2 * Count(history, Median(history) - RawMad(history), Median(history) + RawMad(history)) >= |history|
    ensures RawMad(history) >= 0.0 && Mad(history) > 0.0 && 3.0 * Mad(history) >= RawMad(history)
  {
    hide Count, Median;
    var mid := Median(history);
    var dev := Deviations(history, mid);
    forall x | x in dev ensures 0.0 <= x { }
    HalfAtMostMedian(dev, 0.0);
    DeviationCount(history, mid, RawMad(history));
    MedianNotNegative(dev);
    CountWider(history, mid - RawMad(history), mid + RawMad(history), mid - 3.0 * Mad(history),
      mid + 3.0 * Mad(history));
  }

  lemma MedianNotNegative(v: seq<real>)
    requires forall x :: x in v ==> 0.0 <= x
    ensures Median(v) >= 0.0
  {
    if v != [] {
      hide Count, Median;
      CountAll(v, 0.0, LargestOf(v));
      MedianWithinMajority(v, 0.0, LargestOf(v));
    }
  }

  function LargestOf(v: seq<real>): (m: real)
    ensures forall x :: x in v ==> x <= m
  {
    if v == [] then 0.0
    else
      var m := LargestOf(v[..|v| - 1]);
      assert v == v[..|v| - 1] + [v[|v| - 1]];
      Max(m, v[|v| - 1])
  }

  lemma DivMonotone(x: real, y: real, a: real)
    requires a > 0.0 && x <= y
    ensures x / a <= y / a
  {
  }

  /** A worse current value can only confirm the verdict. */
  lemma VerdictIsMonotone(history: seq<real>, current: real, worse: real, minChangePercent: real)
    requires current <= worse && Anomalous(history, current, minChangePercent)
    ensures Anomalous(history, worse, minChangePercent)
  {
    var mid := Median(history);
    if mid != 0.0 { DivMonotone(current - mid, worse - mid, Abs(mid)); }
  }

  /** A majority inside [lo, hi] bounds the deviation too. */
  lemma MadWithinMajority(history: seq<real>, lo: real, hi: real)
    requires 2 * Count(history, lo, hi) > |history|
    ensures lo <= Median(history) <= hi && 0.0 <= RawMad(history) <= hi - lo
  {
    MedianWithinMajority(history, lo, hi);
    var mid := Median(history);
    DeviationCount(history, mid, hi - lo);
    CountWider(history, lo, hi, mid - (hi - lo), mid + (hi - lo));
    MedianWithinMajority(Deviations(history, mid), 0.0, hi - lo);
  }

  /** `current` is at least `percent` percent above `base`. */
  predicate RoseBy(base: real, current: real, percent: real) {
    current >= base * (1.0 + percent / 100.0)
  }

  lemma ChangeMeaning(mid: real, current: real, percent: real)
    requires mid > 0.0
    ensures Change(mid, current) >= percent <==> RoseBy(mid, current, percent)
  {
    var p := (current - mid) / mid;
    assert p * mid == current - mid;
  }

  lemma RoseByLess(base: real, lower: real, current: real, percent: real)
    requires lower <= base && percent >= 0.0 && RoseBy(base, current, percent)
    ensures RoseBy(lower, current, percent)
  {
    var factor := 1.0 + percent / 100.0;
    assert lower * factor <= base * factor;
  }

  /** Whatever the minority of the history looks like: a verdict means the current value is at
      least the given percentage above `lo`, and a value far enough above `hi` is always caught. */
  lemma MinorityOfSpikesIsHarmless(history: seq<real>, current: real, percent: real, lo: real, hi: real)
    requires |history| >= 6 && 2 * Count(history, lo, hi) > |history| && 0.0 < lo <= hi && percent >= 0.0
    ensures Anomalous(history, current, percent) ==> RoseBy(lo, current, percent)
    ensures RoseBy(hi, current, percent) && current > hi + 3.0 * Max(hi - lo, Max(hi * 0.05, 0.001)) ==>
              Anomalous(history, current, percent)
  {
    hide Count, Median, RawMad, Change, RoseBy;
    MadWithinMajority(history, lo, hi);
    var mid := Median(history);
    ChangeMeaning(mid, current, percent);
    if RoseBy(mid, current, percent) { RoseByLess(mid, lo, current, percent); }
    if RoseBy(hi, current, percent) { RoseByLess(hi, mid, current, percent); }
  }
}
