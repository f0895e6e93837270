/** Query regression detection over cumulative counters: the compatible window that resets,
    restarts and gaps cut short, and the findings reported from it. */
module QueryRegression {
  import opened Models
  import opened Order
  import B = Baseline

  const MINIMUM_CALLS: real := 20.0
  const MINIMUM_RUNTIME: real := 1000.0
  const WINDOW := 8

  datatype QueryKey = QueryKey(database: string, id: string)

  datatype QueryStat = QueryStat(key: QueryKey, calls: real, runtime: real, rows: real, sharedReads: real)

  datatype Observation = Observation(at: Time, statsReset: Option<Time>, postmasterStart: Option<Time>,
    queries: seq<QueryStat>)

  datatype Interval = Interval(start: Time, end: Time, calls: real, runtime: real, mean: real, rows: real,
    sharedReads: real)

  type Sample = map<QueryKey, QueryStat>

  /** Later entries of a sample replace earlier ones with the same key. */
  function SampleOf(queries: seq<QueryStat>): Sample {
    if queries == [] then map[]
    else SampleOf(queries[..|queries| - 1])[queries[|queries| - 1].key := queries[|queries| - 1]]
  }

  method QueryMap(queries: seq<QueryStat>) returns (out: Sample)
    ensures out == SampleOf(queries)
  {
    out := map[];
    for i := 0 to |queries|
      invariant out == SampleOf(queries[..i])
    {
      assert queries[..i + 1][..i] == queries[..i];
      out := out[queries[i].key := queries[i]];
    }
    assert queries[..|queries|] == queries;
  }

  method QueryMaps(observations: seq<Observation>) returns (maps: seq<Sample>)
    ensures |maps| == |observations| && forall i :: 0 <= i < |maps| ==> maps[i] == SampleOf(observations[i].queries)
  {
    maps := [];
    for i := 0 to |observations|
      invariant |maps| == i && forall k :: 0 <= k < i ==> maps[k] == SampleOf(observations[k].queries)
    {
      var sample := QueryMap(observations[i].queries);
      maps := maps + [sample];
    }
  }

  // ---- compatible pairs ----

  predicate Seen(o: Observation, key: QueryKey) {
    key in SampleOf(o.queries)
  }

  function Stat(o: Observation, key: QueryKey): QueryStat
    requires Seen(o, key)
  {
    SampleOf(o.queries)[key]
  }

  /** `q` is what the observation says of the query: the last of its entries. */
  ghost predicate SaysOf(o: Observation, key: QueryKey, q: QueryStat) {
    exists i :: 0 <= i < |o.queries| && o.queries[i] == q && q.key == key &&
      forall j :: i < j < |o.queries| ==> o.queries[j].key != key
  }

  lemma {:induction false} SampleMeaning(queries: seq<QueryStat>, key: QueryKey)
    ensures key in SampleOf(queries) <==> exists i :: 0 <= i < |queries| && queries[i].key == key
    ensures key in SampleOf(queries) ==>
              exists i :: 0 <= i < |queries| && queries[i] == SampleOf(queries)[key] && queries[i].key == key &&
                forall j :: i < j < |queries| ==> queries[j].key != key
  {
    if queries != [] {
      var front, last := queries[..|queries| - 1], queries[|queries| - 1];
      SampleMeaning(front, key);
      assert queries == front + [last];
      if last.key == key {
        assert queries[|queries| - 1] == SampleOf(queries)[key];
      } else if key in SampleOf(front) {
        var i :| 0 <= i < |front| && front[i] == SampleOf(front)[key] && front[i].key == key &&
          forall j :: i < j < |front| ==> front[j].key != key;
        assert queries[i] == SampleOf(queries)[key];
      }
    }
  }

  lemma StatMeaning(o: Observation, key: QueryKey)
    ensures Seen(o, key) <==> exists q :: SaysOf(o, key, q)
    ensures Seen(o, key) ==> SaysOf(o, key, Stat(o, key))
    ensures forall q :: Seen(o, key) && SaysOf(o, key, q) ==> q == Stat(o, key)
  {
    SampleMeaning(o.queries, key);
    hide SampleOf;
    forall q | SaysOf(o, key, q) ensures Seen(o, key) && q == Stat(o, key) {
      var i :| 0 <= i < |o.queries| && o.queries[i] == q && q.key == key &&
        forall j :: i < j < |o.queries| ==> o.queries[j].key != key;
      assert o.queries[i].key == key;
      var k :| 0 <= k < |o.queries| && o.queries[k] == Stat(o, key) && o.queries[k].key == key &&
        forall j :: k < j < |o.queries| ==> o.queries[j].key != key;
      assert i == k;
    }
    if Seen(o, key) {
      var k :| 0 <= k < |o.queries| && o.queries[k] == Stat(o, key) && o.queries[k].key == key &&
        forall j :: k < j < |o.queries| ==> o.queries[j].key != key;
      assert SaysOf(o, key, Stat(o, key));
    }
  }

  /** Nothing was reset between two observations of the query, and enough happened. */
  predicate Compatible(before: Observation, after: Observation, key: QueryKey) {
    && Seen(before, key) && Seen(after, key)
    && before.statsReset == after.statsReset && before.postmasterStart == after.postmasterStart
    && Stat(after, key).calls - Stat(before, key).calls >= MINIMUM_CALLS
    && Stat(after, key).runtime - Stat(before, key).runtime >= MINIMUM_RUNTIME
    && Stat(after, key).rows >= Stat(before, key).rows && Stat(after, key).sharedReads >= Stat(before, key).sharedReads
  }

  function IntervalOf(before: Observation, after: Observation, key: QueryKey): Interval
    requires Compatible(before, after, key)
  {
    var b, a := Stat(before, key), Stat(after, key);
    Interval(before.at, after.at, a.calls - b.calls, a.runtime - b.runtime,
      (a.runtime - b.runtime) / (a.calls - b.calls),
             a.rows - b.rows, a.sharedReads - b.sharedReads)
  }

  /** How many of the last consecutive pairs are compatible without a break. */
  function Suffix(o: seq<Observation>, key: QueryKey): nat {
    if |o| < 2 || !Compatible(o[|o| - 2], o[|o| - 1], key) then 0 else 1 + Suffix(o[..|o| - 1], key)
  }

  lemma {:induction false} SuffixMeaning(o: seq<Observation>, key: QueryKey)
    ensures var k := Suffix(o, key);
            && (k == 0 || k < |o|)
            && (forall i :: |o| - k <= i < |o| && i > 0 ==> Compatible(o[i - 1], o[i], key))
            && (k + 1 < |o| ==> !Compatible(o[|o| - k - 2], o[|o| - k - 1], key))
  {
    if |o| >= 2 && Compatible(o[|o| - 2], o[|o| - 1], key) { SuffixMeaning(o[..|o| - 1], key); }
  }

  /** Interval `i` of the window is that of the `i`-th of the last |intervals| pairs. */
  ghost predicate PairAt(intervals: seq<Interval>, o: seq<Observation>, key: QueryKey, i: nat)
    requires i < |intervals| < |o|
  {
    var j := |o| - |intervals| + i;
    Compatible(o[j - 1], o[j], key) && intervals[i] == IntervalOf(o[j - 1], o[j], key)
  }

  /** The window is exactly the longest run of compatible pairs that ends at the newest
      observation, in order. */
  ghost predicate IsWindow(intervals: seq<Interval>, o: seq<Observation>, key: QueryKey) {
    && (intervals == [] || |intervals| < |o|)
    && (forall i :: 0 <= i < |intervals| ==> PairAt(intervals, o, key, i))
    && (|intervals| + 1 < |o| ==> !Compatible(o[|o| - |intervals| - 2], o[|o| - |intervals| - 1], key))
  }

  lemma WindowLength(intervals: seq<Interval>, o: seq<Observation>, key: QueryKey)
    requires IsWindow(intervals, o, key)
    ensures |intervals| == Suffix(o, key)
  {
    hide Compatible, IntervalOf;
    SuffixMeaning(o, key);
    forall j | |o| - |intervals| <= j < |o| && j > 0 ensures Compatible(o[j - 1], o[j], key) {
      assert PairAt(intervals, o, key, j - (|o| - |intervals|));
    }
  }

  method CompatibleQueryIntervals(key: QueryKey, o: seq<Observation>, maps: seq<Sample>)
    returns (intervals: seq<Interval>)
    requires |maps| == |o| > 0 && forall i :: 0 <= i < |o| ==> maps[i] == SampleOf(o[i].queries)
    ensures IsWindow(intervals, o, key)
  {
    hide IsWindow, IntervalOf;
    intervals := [];
    WindowEmpty(o[..1], key);
    for i := 1 to |o|
      invariant IsWindow(intervals, o[..i], key)
    {
      var whole := o[..i + 1];
      assert whole[..i] == o[..i] && whole[i] == o[i] && whole[i - 1] == o[i - 1];
      if key !in maps[i - 1] || key !in maps[i] ||
         o[i - 1].statsReset != o[i].statsReset || o[i - 1].postmasterStart != o[i].postmasterStart
      {
        intervals := [];
        WindowEmpty(whole, key);
        continue;
      }
      var before, after := maps[i - 1][key], maps[i][key];
      var calls, runtime := after.calls - before.calls, after.runtime - before.runtime;
      var rows, sharedReads := after.rows - before.rows, after.sharedReads - before.sharedReads;
      if calls < MINIMUM_CALLS || runtime < MINIMUM_RUNTIME || rows < 0.0 || sharedReads < 0.0 {
        intervals := [];
        WindowEmpty(whole, key);
        continue;
      }
      WindowGrows(intervals, whole, key);
      intervals := intervals + [IntervalOf(o[i - 1], o[i], key)];
    }
    assert o[..|o|] == o;
  }

  lemma WindowGrows(intervals: seq<Interval>, o: seq<Observation>, key: QueryKey)
    requires |o| >= 2 && IsWindow(intervals, o[..|o| - 1], key) && Compatible(o[|o| - 2], o[|o| - 1], key)
    ensures IsWindow(intervals + [IntervalOf(o[|o| - 2], o[|o| - 1], key)], o, key)
  {
    hide Compatible, IntervalOf;
    var front := o[..|o| - 1];
    var longer := intervals + [IntervalOf(o[|o| - 2], o[|o| - 1], key)];
    forall i | 0 <= i < |longer| ensures PairAt(longer, o, key, i) {
      if i < |intervals| {
        assert PairAt(intervals, front, key, i);
        var j := |front| - |intervals| + i;
        assert front[j - 1] == o[j - 1] && front[j] == o[j];
      }
    }
  }

  lemma WindowEmpty(o: seq<Observation>, key: QueryKey)
    requires |o| >= 2 ==> !Compatible(o[|o| - 2], o[|o| - 1], key)
    ensures IsWindow([], o, key)
  {
  }

  /** Two consecutive observations that may be compared: the query is in both, nothing was reset or
      restarted in between, no counter ran backwards, and there were at least twenty calls and one
      second of runtime. */
  ghost predicate Comparable(a: Observation, b: Observation, key: QueryKey, p: QueryStat, q: QueryStat) {
    && SaysOf(a, key, p) && SaysOf(b, key, q)
    && a.statsReset == b.statsReset && a.postmasterStart == b.postmasterStart
    && q.calls - p.calls >= 20.0 && q.runtime - p.runtime >= 1000.0
    && q.rows >= p.rows && q.sharedReads >= p.sharedReads
  }

  ghost predicate MayCompare(a: Observation, b: Observation, key: QueryKey) {
    exists p, q :: Comparable(a, b, key, p, q)
  }

  lemma ComparableMeaning(a: Observation, b: Observation, key: QueryKey)
    ensures Compatible(a, b, key) <==> MayCompare(a, b, key)
    ensures Compatible(a, b, key) ==> Comparable(a, b, key, Stat(a, key), Stat(b, key))
  {
    hide SaysOf, Seen, Stat;
    StatMeaning(a, key);
    StatMeaning(b, key);
    if Compatible(a, b, key) {
      assert Comparable(a, b, key, Stat(a, key), Stat(b, key));
    }
    if MayCompare(a, b, key) {
      var p, q :| Comparable(a, b, key, p, q);
      assert Seen(a, key) && Seen(b, key) && p == Stat(a, key) && q == Stat(b, key);
    }
  }

  /** What an interval of the window says: the times of its two observations, the differences of their
      counters, and a mean that is the runtime shared out over the calls. */
  ghost predicate Measures(v: Interval, a: Observation, b: Observation, p: QueryStat, q: QueryStat) {
    && v.start == a.at && v.end == b.at
    && v.calls == q.calls - p.calls && v.runtime == q.runtime - p.runtime
    && v.rows == q.rows - p.rows && v.sharedReads == q.sharedReads - p.sharedReads
    && v.mean * v.calls == v.runtime
  }

  lemma IntervalMeasures(a: Observation, b: Observation, key: QueryKey)
    requires Compatible(a, b, key)
    ensures Measures(IntervalOf(a, b, key), a, b, Stat(a, key), Stat(b, key))
  {
    hide Seen, Stat;
    var p, q := Stat(a, key), Stat(b, key);
    var mean := (q.runtime - p.runtime) / (q.calls - p.calls);
    assert mean * (q.calls - p.calls) == q.runtime - p.runtime;
  }

  ghost predicate MeasuresPair(v: Interval, a: Observation, b: Observation, key: QueryKey) {
    exists p, q :: Comparable(a, b, key, p, q) && Measures(v, a, b, p, q)
  }

  /** The window, from the observations alone: interval by interval it measures the last comparable
      pairs, and the pair before them is not comparable. */
  lemma WindowMeaning(intervals: seq<Interval>, o: seq<Observation>, key: QueryKey)
    requires IsWindow(intervals, o, key)
    ensures intervals == [] || |intervals| < |o|
    ensures forall i :: 0 <= i < |intervals| ==>
              MeasuresPair(intervals[i], o[|o| - |intervals| + i - 1], o[|o| - |intervals| + i], key)
    ensures |intervals| + 1 < |o| ==>
              !MayCompare(o[|o| - |intervals| - 2], o[|o| - |intervals| - 1], key)
  {
    hide Comparable, MayCompare, Measures, Compatible, IntervalOf, Seen, Stat;
    forall i | 0 <= i < |intervals|
      ensures MeasuresPair(intervals[i], o[|o| - |intervals| + i - 1], o[|o| - |intervals| + i], key)
    {
      var a, b := o[|o| - |intervals| + i - 1], o[|o| - |intervals| + i];
      assert PairAt(intervals, o, key, i);
      ComparableMeaning(a, b, key);
      IntervalMeasures(a, b, key);
    }
    if |intervals| + 1 < |o| {
      ComparableMeaning(o[|o| - |intervals| - 2], o[|o| - |intervals| - 1], key);
    }
  }

  // ---- what the window guarantees ----

  function SumCalls(intervals: seq<Interval>): real {
    if intervals == [] then 0.0 else SumCalls(intervals[..|intervals| - 1]) + intervals[|intervals| - 1].calls
  }

  function SumRuntime(intervals: seq<Interval>): real {
    if intervals == [] then 0.0 else SumRuntime(intervals[..|intervals| - 1]) + intervals[|intervals| - 1].runtime
  }

  lemma {:induction false} WindowTelescopes(intervals: seq<Interval>, o: seq<Observation>, key: QueryKey, n: nat)
    requires IsWindow(intervals, o, key) && 0 < n <= |intervals|
    ensures var first, last := o[|o| - |intervals| - 1], o[|o| - |intervals| + n - 1];
            && Seen(first, key) && Seen(last, key)
            && SumCalls(intervals[..n]) == Stat(last, key).calls - Stat(first, key).calls
            && SumRuntime(intervals[..n]) == Stat(last, key).runtime - Stat(first, key).runtime
            && first.statsReset == last.statsReset && first.postmasterStart == last.postmasterStart
  {
    assert PairAt(intervals, o, key, n - 1);
    assert intervals[..n][..n - 1] == intervals[..n - 1];
    if n == 1 {
      assert intervals[..0] == [];
    } else {
      WindowTelescopes(intervals, o, key, n - 1);
    }
  }

  /** All observations of the window lie between the same statistics reset and server start, and
      its calls and runtimes add up to the difference of the counters at its ends. */
  lemma WindowIsOneEpoch(intervals: seq<Interval>, o: seq<Observation>, key: QueryKey, i: nat)
    requires IsWindow(intervals, o, key) && intervals != [] && i <= |intervals|
    ensures var first, at, last := o[|o| - |intervals| - 1], o[|o| - |intervals| - 1 + i], o[|o| - 1];
            && at.statsReset == last.statsReset && at.postmasterStart == last.postmasterStart
            && Seen(first, key) && Seen(last, key)
            && SumCalls(intervals) == Stat(last, key).calls - Stat(first, key).calls
            && SumRuntime(intervals) == Stat(last, key).runtime - Stat(first, key).runtime
  {
    hide Compatible, SumCalls, SumRuntime;
    WindowTelescopes(intervals, o, key, |intervals|);
    assert intervals[..|intervals|] == intervals;
    if i > 0 { WindowTelescopes(intervals, o, key, i); }
  }

  // ---- the findings ----

  datatype ChangeEvent = ChangeEvent(at: Time, summary: string)

  datatype Confidence = Medium | High

  /** A reported regression: the query, the confidence and the correlated changes shown. */
  datatype Regression = Regression(key: QueryKey, confidence: Confidence, correlated: seq<ChangeEvent>)

  function Means(intervals: seq<Interval>): (means: seq<real>)
    ensures |means| == |intervals|
  {
    seq(|intervals|, i requires 0 <= i < |intervals| => intervals[i].mean)
  }

  /** Two consecutive anomalous intervals over at least six baseline intervals, with a baseline
      median and an increase of at least five milliseconds. */
  predicate Regressed(intervals: seq<Interval>) {
    && |intervals| >= WINDOW
    && var baseline := Means(intervals[..|intervals| - 2]);
       var previous, latest := intervals[|intervals| - 2].mean, intervals[|intervals| - 1].mean;
       && B.Anomalous(baseline, previous, 50.0) && B.Anomalous(baseline, latest, 50.0)
       && B.Median(baseline) >= 5.0 && latest - B.Median(baseline) >= 5.0
  }

  /** What a regression is: from eight intervals on, both newest means are half as slow again as the
      median of the earlier ones and more than three of the detector's widths above it, the median is
      at least five milliseconds and the newest mean at least five above it. */
  lemma RegressedMeaning(intervals: seq<Interval>, earlier: seq<real>)
    requires |earlier| + 2 == |intervals| && forall i :: 0 <= i < |earlier| ==> earlier[i] == intervals[i].mean
    ensures var mid, width := B.Median(earlier), B.Mad(earlier);
            Regressed(intervals) <==>
              && |intervals| >= 8 && mid >= 5.0 && intervals[|intervals| - 1].mean - mid >= 5.0
              && forall i :: |intervals| - 2 <= i < |intervals| ==>
                   && 2.0 * intervals[i].mean >= 3.0 * mid
                   && intervals[i].mean - mid > width + width + width
  {
    assert earlier == Means(intervals[..|intervals| - 2]);
    var n := |intervals|;
    if n >= 8 {
      B.VerdictMeaning(earlier, intervals[n - 2].mean, 50.0);
      B.VerdictMeaning(earlier, intervals[n - 1].mean, 50.0);
    }
    hide B.Anomalous, B.Median, B.Mad;
  }

  /** The first five events inside the two anomalous intervals. */
  function Correlated(events: seq<ChangeEvent>, start: Time, end: Time): seq<ChangeEvent> {
    if events == [] then []
    else
      var had, last := Correlated(events[..|events| - 1], start, end), events[|events| - 1];
      if start <= last.at <= end && |had| < 5 then had + [last] else had
  }

  function ConfidenceOf(intervals: seq<Interval>, correlated: seq<ChangeEvent>): Confidence
    requires |intervals| >= WINDOW
  {
    if correlated == [] && |intervals| - 2 >= 7 &&
       intervals[|intervals| - 1].calls >= 50.0 && intervals[|intervals| - 2].calls >= 50.0
    then High else Medium
  }

  /** `shown` are the events at the positions `at`: all of those inside the span, or the first five
      of them. */
  ghost predicate FirstInSpan(shown: seq<ChangeEvent>, at: seq<nat>, events: seq<ChangeEvent>, start: Time, end: Time) {
    && |at| == |shown| <= 5
    && (forall i :: 0 <= i < |at| ==> at[i] < |events| && shown[i] == events[at[i]] && start <= shown[i].at <= end)
    && (forall i, j :: 0 <= i < j < |at| ==> at[i] < at[j])
    && (forall k :: 0 <= k < |events| && start <= events[k].at <= end && k !in at ==> |at| == 5 && at[4] < k)
  }

  lemma OneMoreInSpan(shown: seq<ChangeEvent>, at: seq<nat>, events: seq<ChangeEvent>, last: ChangeEvent, start: Time,
                      end: Time)
    requires FirstInSpan(shown, at, events, start, end) && start <= last.at <= end && |shown| < 5
    ensures FirstInSpan(shown + [last], at + [|events|], events + [last], start, end)
  {
    var more, longer := at + [|events|], events + [last];
    forall k | 0 <= k < |longer| && start <= longer[k].at <= end ensures k in more {
      if k < |events| {
        assert k in at;
      } else {
        assert more[|at|] == k;
      }
    }
  }

  lemma NoMoreInSpan(shown: seq<ChangeEvent>, at: seq<nat>, events: seq<ChangeEvent>, last: ChangeEvent, start: Time,
                     end: Time)
    requires FirstInSpan(shown, at, events, start, end) && !(start <= last.at <= end && |shown| < 5)
    ensures FirstInSpan(shown, at, events + [last], start, end)
  {
  }

  lemma {:induction false} CorrelatedMeaning(events: seq<ChangeEvent>, start: Time, end: Time) returns (at: seq<nat>)
    ensures FirstInSpan(Correlated(events, start, end), at, events, start, end)
  {
    if events == [] {
      at := [];
    } else {
      var front, last := events[..|events| - 1], events[|events| - 1];
      at := CorrelatedMeaning(front, start, end);
      var shown := Correlated(front, start, end);
      if start <= last.at <= end && |shown| < 5 {
        OneMoreInSpan(shown, at, front, last, start, end);
        at := at + [|front|];
      } else {
        NoMoreInSpan(shown, at, front, last, start, end);
      }
      assert events == front + [last];
    }
  }

  lemma {:induction false} FullStaysFull(events: seq<ChangeEvent>, i: nat, start: Time, end: Time)
    requires i <= |events| && |Correlated(events[..i], start, end)| == 5
    ensures Correlated(events, start, end) == Correlated(events[..i], start, end)
  {
    if i == |events| {
      assert events[..i] == events;
    } else {
      assert events[..|events| - 1][..i] == events[..i];
      FullStaysFull(events[..|events| - 1], i, start, end);
    }
  }

  method CorrelateChanges(events: seq<ChangeEvent>, start: Time, end: Time) returns (out: seq<ChangeEvent>)
    ensures out == Correlated(events, start, end)
  {
    out := [];
    for i := 0 to |events|
      invariant out == Correlated(events[..i], start, end) && |out| < 5
    {
      assert events[..i + 1][..i] == events[..i];
      if events[i].at < start || events[i].at > end {
        continue;
      }
      out := out + [events[i]];
      if |out| == 5 {
        FullStaysFull(events, i + 1, start, end);
        return;
      }
    }
    assert events[..|events|] == events;
  }

  /** Whether the window of one query is a regression, and how it is reported. */
  method Judge(key: QueryKey, intervals: seq<Interval>, changes: seq<ChangeEvent>) returns (finding: Option<Regression>)
    ensures finding.Some? <==> Regressed(intervals)
    ensures finding.Some? ==>
              var correlated := Correlated(changes, intervals[|intervals| - 2].start, intervals[|intervals| - 1].end);
              finding.value == Regression(key, ConfidenceOf(intervals, correlated), correlated)
    ensures finding.Some? ==>
              (finding.value.confidence == High <==>
                 && finding.value.correlated == [] && |intervals| >= 9
                 && intervals[|intervals| - 1].calls >= 50.0 && intervals[|intervals| - 2].calls >= 50.0)
  {
    if |intervals| < WINDOW {
      return None;
    }
    var previous, latest := intervals[|intervals| - 2], intervals[|intervals| - 1];
    var baseline := Means(intervals[..|intervals| - 2]);
    var previousComparison := B.CompareBaseline(baseline, previous.mean, 50.0);
    var comparison := B.CompareBaseline(baseline, latest.mean, 50.0);
    var absolute := latest.mean - comparison.median;
    if !previousComparison.anomalous || !comparison.anomalous || comparison.median < 5.0 || absolute < 5.0 {
      return None;
    }
    var confidence := Medium;
    if |baseline| >= 7 && latest.calls >= 50.0 && previous.calls >= 50.0 {
      confidence := High;
    }
    var correlated := CorrelateChanges(changes, previous.start, latest.end);
    if |correlated| > 0 {
      confidence := Medium;
    }
    finding := Some(Regression(key, confidence, correlated));
  }

  /** The window of a query over the history and the current observation. */
  function WindowOf(key: QueryKey, o: seq<Observation>): seq<Interval> {
    if |o| < 2 || !Compatible(o[|o| - 2], o[|o| - 1], key) then []
    else WindowOf(key, o[..|o| - 1]) + [IntervalOf(o[|o| - 2], o[|o| - 1], key)]
  }

  lemma {:induction false} WindowOfIsWindow(key: QueryKey, o: seq<Observation>)
    ensures IsWindow(WindowOf(key, o), o, key)
  {
    hide IsWindow, Compatible, IntervalOf;
    if |o| < 2 || !Compatible(o[|o| - 2], o[|o| - 1], key) {
      WindowEmpty(o, key);
    } else {
      WindowOfIsWindow(key, o[..|o| - 1]);
      WindowGrows(WindowOf(key, o[..|o| - 1]), o, key);
    }
  }

  lemma WindowUnique(a: seq<Interval>, b: seq<Interval>, o: seq<Observation>, key: QueryKey)
    requires IsWindow(a, o, key) && IsWindow(b, o, key)
    ensures a == b
  {
    hide Compatible, IntervalOf;
    WindowLength(a, o, key);
    WindowLength(b, o, key);
    forall i | 0 <= i < |a| ensures a[i] == b[i] {
      assert PairAt(a, o, key, i) && PairAt(b, o, key, i);
    }
  }

  /** One regression as the window of its query demands. */
  ghost predicate Reported(f: Regression, o: seq<Observation>, changes: seq<ChangeEvent>) {
    var intervals := WindowOf(f.key, o);
    && Regressed(intervals)
    && f.correlated == Correlated(changes, intervals[|intervals| - 2].start, intervals[|intervals| - 1].end)
    && f.confidence == ConfidenceOf(intervals, f.correlated)
  }

  /** With fewer than eight earlier observations no window is long enough. */
  lemma ShortHistoryIsQuiet(key: QueryKey, history: seq<Observation>, current: Observation)
    requires |history| < 8
    ensures !Regressed(WindowOf(key, history + [current]))
  {
    WindowOfIsWindow(key, history + [current]);
  }

  /** `QueryRegressionFindings`: exactly the current queries whose window is a regression, each
      once, in no particular order. */
  method QueryRegressionFindings(history: seq<Observation>, current: Observation, changes: seq<ChangeEvent>)
    returns (out: seq<Regression>)
    ensures forall f :: f in out ==> Seen(current, f.key) && Reported(f, history + [current], changes)
    ensures forall key :: Seen(current, key) && Regressed(WindowOf(key, history + [current])) ==>
              exists f :: f in out && f.key == key
    ensures forall i, j :: 0 <= i < j < |out| ==> out[i].key != out[j].key
  {
    hide Regressed, WindowOf, Reported;
    if |history| < 8 {
      forall key ensures !Regressed(WindowOf(key, history + [current])) {
        ShortHistoryIsQuiet(key, history, current);
      }
      return [];
    }
    var observations := history + [current];
    var maps := QueryMaps(observations);
    assert maps[|maps| - 1] == SampleOf(current.queries);
    out := ReportAll(observations, maps, changes, maps[|maps| - 1].Keys);
  }

  method ReportAll(o: seq<Observation>, maps: seq<Sample>, changes: seq<ChangeEvent>, keys: set<QueryKey>)
    returns (out: seq<Regression>)
    requires |maps| == |o| > 0 && forall i :: 0 <= i < |o| ==> maps[i] == SampleOf(o[i].queries)
    ensures forall f :: f in out ==> f.key in keys && Reported(f, o, changes)
    ensures forall key :: key in keys && Regressed(WindowOf(key, o)) ==> exists f :: f in out && f.key == key
    ensures forall i, j :: 0 <= i < j < |out| ==> out[i].key != out[j].key
  {
    hide Regressed, WindowOf, IsWindow, Correlated, ConfidenceOf;
    out := [];
    var left := keys;
    while left != {}
      invariant left <= keys
      invariant forall f :: f in out ==> f.key in keys - left && Reported(f, o, changes)
      invariant forall key :: key in keys - left && Regressed(WindowOf(key, o)) ==> exists f :: f in out && f.key == key
      invariant forall i, j :: 0 <= i < j < |out| ==> out[i].key != out[j].key
      decreases left
    {
      var key :| key in left;
      left := left - {key};
      var intervals := CompatibleQueryIntervals(key, o, maps);
      WindowOfIsWindow(key, o);
      WindowUnique(intervals, WindowOf(key, o), o, key);
      var finding := Judge(key, intervals, changes);
      if finding.Some? {
        ghost var had := out;
        out := out + [finding.value];
        assert forall f :: f in out <==> f in had || f == finding.value;
      }
    }
  }

  /** `QueryRegressionFindingReady`. */
  method FindingReady(key: QueryKey, history: seq<Observation>, current: Observation) returns (ready: bool)
    ensures ready <==> Suffix(history + [current], key) >= WINDOW
  {
    var o := history + [current];
    var maps := QueryMaps(o);
    var intervals := CompatibleQueryIntervals(key, o, maps);
    WindowLength(intervals, o, key);
    ready := |intervals| >= WINDOW;
  }

  /** Every reported regression is one whose full compatible window is there, so it could also
      be resolved safely. */
  lemma ReportedIsReady(f: Regression, history: seq<Observation>, current: Observation, changes: seq<ChangeEvent>)
    requires Reported(f, history + [current], changes)
    ensures Suffix(history + [current], f.key) >= WINDOW
  {
    WindowOfIsWindow(f.key, history + [current]);
    WindowLength(WindowOf(f.key, history + [current]), history + [current], f.key);
  }

  /** Between the two observations the calls took, by the counters, at least half as long again as
      `lo` milliseconds each. */
  ghost predicate HalfAgainAs(lo: real, a: Observation, b: Observation, key: QueryKey) {
    exists p, q :: Comparable(a, b, key, p, q) && 2.0 * (q.runtime - p.runtime) >= 3.0 * lo * (q.calls - p.calls)
  }

  lemma SlowerOnCounters(v: Interval, a: Observation, b: Observation, key: QueryKey, lo: real)
    requires MeasuresPair(v, a, b, key) && B.RoseBy(lo, v.mean, 50.0)
    ensures HalfAgainAs(lo, a, b, key)
  {
    hide SaysOf;
    var p, q :| Comparable(a, b, key, p, q) && Measures(v, a, b, p, q);
    assert 2.0 * v.mean >= 3.0 * lo;
    B.TimesMonotone(3.0 * lo, 2.0 * v.mean, v.calls);
    assert 2.0 * v.mean * v.calls == 2.0 * (v.mean * v.calls);
  }

  /** A minority of odd baseline intervals cannot produce a regression: in both newest intervals the
      calls took, by the counters, half as long again as whatever most of the baseline stayed above. */
  lemma ReportedIsSlower(f: Regression, o: seq<Observation>, changes: seq<ChangeEvent>, lo: real, hi: real)
    requires Reported(f, o, changes) && 0.0 < lo <= hi
    requires var n := |WindowOf(f.key, o)|; n >= 2 && 2 * B.Count(Means(WindowOf(f.key, o)[..n - 2]), lo, hi) > n - 2
    ensures |o| >= 9 && HalfAgainAs(lo, o[|o| - 3], o[|o| - 2], f.key) && HalfAgainAs(lo, o[|o| - 2], o[|o| - 1], f.key)
  {
    hide WindowOf, B.Count, B.RoseBy, B.Anomalous, MeasuresPair, HalfAgainAs, B.Median, B.Mad, IsWindow;
    var intervals := WindowOf(f.key, o);
    var n := |intervals|;
    var baseline := Means(intervals[..n - 2]);
    B.MinorityOfSpikesIsHarmless(baseline, intervals[n - 2].mean, 50.0, lo, hi);
    B.MinorityOfSpikesIsHarmless(baseline, intervals[n - 1].mean, 50.0, lo, hi);
    WindowOfIsWindow(f.key, o);
    WindowMeaning(intervals, o, f.key);
    assert MeasuresPair(intervals[n - 2], o[|o| - 3], o[|o| - 2], f.key);
    assert MeasuresPair(intervals[n - 1], o[|o| - 2], o[|o| - 1], f.key);
    SlowerOnCounters(intervals[n - 2], o[|o| - 3], o[|o| - 2], f.key, lo);
    SlowerOnCounters(intervals[n - 1], o[|o| - 2], o[|o| - 1], f.key, lo);
  }
}
