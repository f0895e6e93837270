/** Reading metric history: raw rows and the finest retained buckets, in time order, thinned
    evenly to the caller's limit. */
module MetricHistory {
  import opened Models
  import opened Order
  import opened MetricRetention

  datatype Resolution = Raw | QuarterHour | SixHours

  datatype Point = Point(series: Series, at: Time, value: real, resolution: Resolution, range: Option<(real, real)>,
    samples: nat)

  predicate NotLater(a: Point, b: Point) {
    a.at <= b.at
  }

  predicate NotEarlier(a: Point, b: Point) {
    a.at >= b.at
  }

  function Last<T>(s: seq<T>, n: nat): seq<T> {
    if |s| <= n then s else s[|s| - n..]
  }

  // ---- even spacing ----

  /** Position of the i-th selected point out of `n`. */
  function Index(i: nat, n: nat, limit: nat): nat
    requires n > 0 && limit >= 2
  {
    i * (n - 1) / (limit - 1)
  }

  lemma Distribute(m: int, x: int, y: int)
    ensures m * (x + y) == m * x + m * y
  {
  }

  lemma DivMod(a: nat, m: nat)
    requires m > 0
    ensures a == m * (a / m) + a % m && a / m >= 0
  {
  }

  lemma MulMonotone(m: nat, x: int, y: int)
    ensures x <= y ==> m * x <= m * y
  {
  }

  lemma QuotientUnique(m: nat, x: int, r: nat, y: int, s: nat)
    requires r < m && s < m && m * x + r == m * y + s
    ensures x == y
  {
    Distribute(m, x, 1);
    Distribute(m, y, 1);
    MulMonotone(m, x + 1, y);
    MulMonotone(m, y + 1, x);
  }

  lemma Quotient(a: nat, m: nat, q: nat, r: nat)
    requires m > 0 && a == m * q + r && r < m
    ensures a / m == q
  {
    DivMod(a, m);
    QuotientUnique(m, a / m, a % m, q, r);
  }

  /** floor((a + b) / m) is floor(a / m) + floor(b / m), or one more. */
  lemma FloorOfSum(a: nat, b: nat, m: nat)
    requires m > 0
    ensures a / m + b / m <= (a + b) / m <= a / m + b / m + 1
  {
    DivMod(a, m);
    DivMod(b, m);
    SumOfQuotients(a + b, m, a / m, b / m, a % m, b % m);
  }

  lemma SumOfQuotients(c: nat, m: nat, x: nat, y: nat, r: nat, s: nat)
    requires m > 0 && r < m && s < m && c == m * x + r + (m * y + s)
    ensures x + y <= c / m <= x + y + 1
  {
    Distribute(m, x, y);
    if r + s < m {
      Quotient(c, m, x + y, r + s);
    } else {
      Distribute(m, x + y, 1);
      Quotient(c, m, x + y + 1, r + s - m);
    }
  }

  /** Neighbouring positions are floor((n-1)/(limit-1)) apart, or one more: gaps never differ by
      more than one, and a real thinning never repeats a point. */
  lemma GapsAreEven(i: nat, n: nat, limit: nat)
    requires limit >= 2 && n > 0
    ensures var gap := Index(i + 1, n, limit) - Index(i, n, limit);
            var step := (n - 1) / (limit - 1);
            step <= gap <= step + 1
    ensures limit <= n ==> Index(i, n, limit) < Index(i + 1, n, limit)
  {
    assert (i + 1) * (n - 1) == i * (n - 1) + (n - 1);
    FloorOfSum(i * (n - 1), n - 1, limit - 1);
    if limit <= n {
      DivMod(n - 1, limit - 1);
    }
  }

  lemma ExactQuotient(m: nat, x: nat)
    requires m > 0
    ensures m * x >= 0 && m * x / m == x
  {
    MulMonotone(m, 0, x);
    Quotient(m * x, m, x, 0);
  }

  lemma EndsAreKept(n: nat, limit: nat)
    requires limit >= 2 && n > 0
    ensures Index(0, n, limit) == 0 && Index(limit - 1, n, limit) == n - 1
  {
    ExactQuotient(limit - 1, n - 1);
    assert 0 * (n - 1) == 0;
  }

  lemma {:induction false} IndexIncreases(i: nat, j: nat, n: nat, limit: nat)
    requires 2 <= limit <= n && i < j
    ensures Index(i, n, limit) < Index(j, n, limit)
  {
    GapsAreEven(j - 1, n, limit);
    if i < j - 1 { IndexIncreases(i, j - 1, n, limit); }
  }

  lemma IndexInRange(i: nat, n: nat, limit: nat)
    requires 2 <= limit <= n && i < limit
    ensures Index(i, n, limit) < n
  {
    EndsAreKept(n, limit);
    if i < limit - 1 { IndexIncreases(i, limit - 1, n, limit); }
  }

  /** `selected` is `points` read at strictly increasing positions. */
  ghost predicate Thinned<T>(points: seq<T>, selected: seq<T>, at: seq<nat>) {
    && |at| == |selected|
    && (forall i :: 0 <= i < |at| ==> at[i] < |points| && selected[i] == points[at[i]])
    && (forall i, j :: 0 <= i < j < |at| ==> at[i] < at[j])
  }

  method EvenlySpaced(points: seq<Point>, limit: nat) returns (selected: seq<Point>, ghost at: seq<nat>)
    ensures Thinned(points, selected, at)
    ensures |selected| == if |points| <= limit then |points| else limit
    ensures 0 < limit && points != [] ==> selected[|selected| - 1] == points[|points| - 1]
    ensures 2 <= limit < |points| ==> selected[0] == points[0]
    ensures 1 == limit < |points| ==> at == [|points| - 1]
    ensures 2 <= limit < |points| ==> forall i :: 0 <= i < limit ==> at[i] == Index(i, |points|, limit)
  {
    var n := |points|;
    if n <= limit {
      return points, seq(n, i => i);
    }
    if limit == 1 {
      return points[n - 1..], [n - 1];
    }
    selected, at := [], [];
    for i := 0 to limit
      invariant |selected| == |at| == i
      invariant forall k :: 0 <= k < i ==> at[k] == Index(k, n, limit) < n && selected[k] == points[at[k]]
    {
      IndexInRange(i, n, limit);
      var index := i * (n - 1) / (limit - 1);
      selected, at := selected + [points[index]], at + [index];
    }
    if limit >= 2 {
      EndsAreKept(n, limit);
      forall i, j | 0 <= i < j < limit ensures at[i] < at[j] {
        IndexIncreases(i, j, n, limit);
      }
    }
  }

  // ---- reading the tables ----

  predicate Wanted(series: Series, at: Time, serverID: string, name: string, from: Option<Time>) {
    series.serverID == serverID && series.name == name && (from.Some? ==> at >= from.value)
  }

  function RawPoint(m: Sample): Point {
    Point(m.series, m.at, m.value, Raw, None, 0)
  }

  function RawPoints(raw: seq<Sample>, serverID: string, name: string, from: Option<Time>): seq<Point> {
    if raw == [] then []
    else
      var last := raw[|raw| - 1];
      RawPoints(raw[..|raw| - 1], serverID, name, from) + if Wanted(last.series, last.at, serverID, name, from)
        then [RawPoint(last)] else []
  }

  function BucketPoint(b: Bucket, a: Aggregate, resolution: Resolution): Point
    requires a.count > 0
  {
    Point(b.series, b.start, a.sum / a.count as real, resolution, Some((a.minimum, a.maximum)), a.count)
  }

  /** The CHECK constraint of the aggregate table. */
  ghost predicate Counted(tier: Tier) {
    forall b :: b in tier ==> tier[b].count > 0
  }

  /** The buckets of one tier a query asks for; `before` is the bound on the long tier. */
  ghost function TierPoints(tier: Tier, resolution: Resolution, serverID: string, name: string, from: Option<Time>,
                            before: Option<Time>): set<Point>
    requires Counted(tier)
  {
    set b | b in tier && Wanted(b.series, b.start, serverID, name, from) && (before.Some? ==> b.start < before.value) ::
      BucketPoint(b, tier[b], resolution)
  }

  /** What ORDER BY time DESC LIMIT may return of the points `all`. */
  ghost predicate NewestOf(rows: seq<Point>, all: set<Point>, limit: nat) {
    && (forall p :: p in rows ==> p in all)
    && |rows| <= limit
    && (forall p :: p in all && p !in rows ==> |rows| == limit && forall r :: r in rows ==> r.at >= p.at)
  }

  ghost predicate NoRepeats<T>(s: seq<T>) {
    forall i, j :: 0 <= i < j < |s| ==> s[i] != s[j]
  }

  lemma {:induction false} RawPointsMeaning(raw: seq<Sample>, serverID: string, name: string, from: Option<Time>,
                                            p: Point)
    ensures p in RawPoints(raw, serverID, name, from) <==>
            exists m :: m in raw && Wanted(m.series, m.at, serverID, name, from) && p == RawPoint(m)
  {
    if raw != [] {
      var front, last := raw[..|raw| - 1], raw[|raw| - 1];
      RawPointsMeaning(front, serverID, name, from, p);
      assert forall m :: m in raw <==> m in front || m == last;
    }
  }

  lemma TimeOrder()
    ensures TotalPreorder(NotLater) && TotalPreorder(NotEarlier)
  {
  }

  lemma SortedMembers(s: seq<Point>, sorted: seq<Point>)
    requires multiset(s) == multiset(sorted)
    ensures forall p :: p in s <==> p in sorted
  {
    forall p ensures p in s <==> p in sorted {
      assert p in s <==> p in multiset(s);
      assert p in sorted <==> p in multiset(sorted);
    }
  }

  lemma LastIsNewest(sorted: seq<Point>, limit: nat)
    requires Sorted(sorted, NotLater)
    ensures NewestOf(Last(sorted, limit), Elements(sorted), limit)
  {
    var rows := Last(sorted, limit);
    forall p | p in sorted && p !in rows ensures |rows| == limit && forall r :: r in rows ==> r.at >= p.at {
      var k :| 0 <= k < |sorted| && sorted[k] == p;
      assert forall x :: |sorted| - |rows| <= x < |sorted| ==> sorted[x] == rows[x - (|sorted| - |rows|)];
      forall r | r in rows ensures r.at >= p.at {
        var j :| 0 <= j < |rows| && rows[j] == r;
        assert NotLater(sorted[k], sorted[j + (|sorted| - limit)]);
      }
    }
  }

  lemma LastOfSorted(rows: seq<Point>, limit: nat)
    ensures NewestOf(Last(Sort(rows, NotLater), limit), Elements(rows), limit)
  {
    hide Sort, NewestOf, Last;
    var sorted := Sort(rows, NotLater);
    TimeOrder();
    SortSorts(rows, NotLater);
    SortedMembers(rows, sorted);
    assert Elements(sorted) == Elements(rows);
    LastIsNewest(sorted, limit);
  }

  /** SELECT from `metrics`: rows stand in id order, so a stable sort orders by time and id. */
  method QueryRaw(raw: seq<Sample>, serverID: string, name: string, from: Option<Time>, limit: nat)
    returns (out: seq<Point>)
    ensures out == Last(Sort(RawPoints(raw, serverID, name, from), NotLater), limit)
    ensures NewestOf(out, Elements(RawPoints(raw, serverID, name, from)), limit)
  {
    hide Sort, NewestOf, Last;
    var rows := [];
    for i := 0 to |raw|
      invariant rows == RawPoints(raw[..i], serverID, name, from)
    {
      assert raw[..i + 1][..i] == raw[..i];
      if Wanted(raw[i].series, raw[i].at, serverID, name, from) {
        rows := rows + [RawPoint(raw[i])];
      }
    }
    assert raw[..|raw|] == raw;
    out := Last(Sort(rows, NotLater), limit);
    LastOfSorted(rows, limit);
  }

  lemma FirstIsNewest(sorted: seq<Point>, out: seq<Point>, limit: nat)
    requires Sorted(sorted, NotEarlier) && NoRepeats(sorted) &&
              out == if |sorted| <= limit then sorted else sorted[..limit]
    ensures NewestOf(out, Elements(sorted), limit) && NoRepeats(out)
  {
    forall p | p in sorted && p !in out ensures |out| == limit && forall r :: r in out ==> r.at >= p.at {
      var k :| 0 <= k < |sorted| && sorted[k] == p;
      forall r | r in out ensures r.at >= p.at {
        var j :| 0 <= j < |out| && out[j] == r;
        assert forall x :: 0 <= x < |out| ==> sorted[x] == out[x];
        assert NotEarlier(sorted[j], sorted[k]);
      }
    }
  }

  /** ORDER BY time DESC LIMIT. */
  method NewestRows(rows: seq<Point>, limit: nat) returns (out: seq<Point>)
    requires NoRepeats(rows)
    ensures NewestOf(out, Elements(rows), limit) && NoRepeats(out)
  {
    hide Sort, NewestOf;
    var sorted := Sort(rows, NotEarlier);
    TimeOrder();
    SortSorts(rows, NotEarlier);
    NoDuplicates(rows);
    FromMultiset(sorted, Elements(rows));
    out := if |sorted| <= limit then sorted else sorted[..limit];
    FirstIsNewest(sorted, out, limit);
  }

  lemma TierPointsGrow(tier: Tier, b: Bucket, a: Aggregate, resolution: Resolution, serverID: string, name: string,
                       from: Option<Time>, before: Option<Time>)
    requires Counted(tier) && a.count > 0 && b !in tier
    ensures TierPoints(tier[b := a], resolution, serverID, name, from, before) ==
            TierPoints(tier, resolution, serverID, name, from, before) +
            if Wanted(b.series, b.start, serverID, name, from) && (before.Some? ==> b.start < before.value)
            then {BucketPoint(b, a, resolution)} else {}
  {
    var grown := tier[b := a];
    forall c | c in grown && c != b ensures c in tier && grown[c] == tier[c] { }
  }

  method QueryTier(tier: Tier, resolution: Resolution, serverID: string, name: string, from: Option<Time>,
                   before: Option<Time>, limit: nat)
    returns (out: seq<Point>)
    requires Counted(tier)
    ensures NewestOf(out, TierPoints(tier, resolution, serverID, name, from, before), limit) && NoRepeats(out)
  {
    var rows := [];
    var left := tier.Keys;
    while left != {}
      invariant left <= tier.Keys
      invariant Elements(rows) == TierPoints(tier - left, resolution, serverID, name, from, before) && NoRepeats(rows)
      decreases left
    {
      var b :| b in left;
      TierPointsGrow(tier - left, b, tier[b], resolution, serverID, name, from, before);
      assert tier - (left - {b}) == (tier - left)[b := tier[b]];
      left := left - {b};
      if Wanted(b.series, b.start, serverID, name, from) && (before.None? || b.start < before.value) {
        ghost var had := Elements(rows);
        assert BucketPoint(b, tier[b], resolution) !in had;
        rows := rows + [BucketPoint(b, tier[b], resolution)];
        assert Elements(rows) == had + {BucketPoint(b, tier[b], resolution)};
      }
    }
    assert tier - left == tier;
    out := NewestRows(rows, limit);
  }

  ghost predicate IsEarliest(tier: Tier, serverID: string, name: string, earliest: Option<Time>) {
    && (earliest.None? <==> forall b :: b in tier ==> !Wanted(b.series, b.start, serverID, name, None))
    && (earliest.Some? ==>
          && (forall b :: b in tier && Wanted(b.series, b.start, serverID, name, None) ==> earliest.value <= b.start)
          && (exists b :: b in tier && Wanted(b.series, b.start, serverID, name, None) && b.start == earliest.value))
  }

  /** The oldest medium bucket of the metric, in any of its series. */
  method EarliestMedium(tier: Tier, serverID: string, name: string) returns (earliest: Option<Time>)
    ensures IsEarliest(tier, serverID, name, earliest)
    ensures earliest.None? <==> forall b :: b in tier ==> b.series.serverID != serverID || b.series.name != name
    ensures earliest.Some? ==>
              && (forall b :: b in tier && b.series.serverID == serverID && b.series.name == name ==>
                    earliest.value <= b.start)
              && exists b ::
                   && b in tier && b.series.serverID == serverID && b.series.name == name
                   && b.start == earliest.value
  {
    earliest := None;
    var left := tier.Keys;
    while left != {}
      invariant left <= tier.Keys && IsEarliest(tier - left, serverID, name, earliest)
      decreases left
    {
      var b :| b in left;
      left := left - {b};
      if Wanted(b.series, b.start, serverID, name, None) && (earliest.None? || b.start < earliest.value) {
        earliest := Some(b.start);
        assert b in tier - left;
      }
    }
    assert tier - left == tier;
  }

  /** Every point a caller may see: raw rows, medium buckets, and long buckets older than the
      oldest medium one. */
  ghost function AllPoints(t: Tables, serverID: string, name: string, from: Option<Time>,
                           earliest: Option<Time>): set<Point>
    requires Counted(t.medium) && Counted(t.long)
  {
    Elements(RawPoints(t.raw, serverID, name, from)) +
    TierPoints(t.medium, QuarterHour, serverID, name, from, None) +
    TierPoints(t.long, SixHours, serverID, name, from, earliest)
  }

  /** Every point of `all` is in the list or not newer than its last point. */
  ghost predicate KeepsNewest(out: seq<Point>, all: set<Point>) {
    forall p :: p in all ==> out != [] && out[|out| - 1].at >= p.at
  }

  /** A point the limited queries left out has at least `limit` rows in the list, none of its
      own kind older than it. */
  ghost predicate Covers(rows: seq<Point>, all: set<Point>, limit: nat) {
    && (forall p :: p in rows ==> p in all)
    && (forall p :: p in all && p !in rows ==> |rows| >= limit)
    && (forall p :: p in all && p !in rows && limit > 0 ==> exists r :: r in rows && r.at >= p.at)
  }

  lemma QueriesCover(raw: seq<Point>, medium: seq<Point>, long: seq<Point>, a: set<Point>, b: set<Point>,
                     c: set<Point>, limit: nat)
    requires NewestOf(raw, a, limit) && NewestOf(medium, b, limit) && NewestOf(long, c, limit)
    ensures Covers(raw + (medium + long), a + b + c, limit)
  {
    var rows := raw + (medium + long);
    forall p | p in a + b + c && p !in rows
      ensures |rows| >= limit && (limit > 0 ==> exists r :: r in rows && r.at >= p.at)
    {
      var part := if p in a then raw else if p in b then medium else long;
      assert forall r :: r in part ==> r in rows;
      assert p !in part && |part| == limit;
      if limit > 0 { assert part[0] in rows; }
    }
  }

  lemma SortedKeepsNewest(rows: seq<Point>, sorted: seq<Point>, all: set<Point>, limit: nat)
    requires limit > 0 && multiset(rows) == multiset(sorted) && Sorted(sorted, NotLater) && Covers(rows, all, limit)
    ensures KeepsNewest(sorted, all)
  {
    SortedMembers(rows, sorted);
    forall p | p in all ensures sorted != [] && sorted[|sorted| - 1].at >= p.at {
      var q := p;
      if p !in rows {
        q := rows[0];
        assert q in rows;
        q :| q in rows && q.at >= p.at;
      }
      assert q in sorted;
      var k :| 0 <= k < |sorted| && sorted[k] == q;
      if k < |sorted| - 1 { assert NotLater(sorted[k], sorted[|sorted| - 1]); }
    }
  }

  lemma ThinnedIsSorted(points: seq<Point>, selected: seq<Point>, at: seq<nat>)
    requires Thinned(points, selected, at) && Sorted(points, NotLater)
    ensures Sorted(selected, NotLater) && forall p :: p in selected ==> p in points
  {
    forall i, j | 0 <= i < j < |selected| ensures NotLater(selected[i], selected[j]) {
      assert NotLater(points[at[i]], points[at[j]]);
    }
  }

  /** Which of `n` rows a limit selects: the newest of raw rows, or evenly spaced ones of a list
      that holds buckets. */
  ghost predicate Selects(at: seq<nat>, n: nat, mixed: bool, limit: nat) {
    && |at| == (if n <= limit then n else limit)
    && forall i :: 0 <= i < |at| ==>
         at[i] == if n <= limit then i else if !mixed || limit == 1 then n - limit + i else Index(i, n, limit)
  }

  /** The tail of `ListMetrics`. */
  method Trim(sorted: seq<Point>, mixed: bool, limit: nat) returns (out: seq<Point>, ghost at: seq<nat>)
    requires Sorted(sorted, NotLater)
    ensures Thinned(sorted, out, at) && Selects(at, |sorted|, mixed, limit)
    ensures limit > 0 && sorted != [] ==> out[|out| - 1] == sorted[|sorted| - 1]
  {
    var n := |sorted|;
    if n <= limit {
      return sorted, seq(n, i => i);
    }
    if !mixed {
      return sorted[n - limit..], seq(limit, i => n - limit + i);
    }
    out, at := EvenlySpaced(sorted, limit);
  }

  ghost predicate Mixed(rows: seq<Point>) {
    exists p :: p in rows && p.resolution != Raw
  }

  /** What the three queries may find, in time order: the newest raw rows, each as often as it is
      stored, and the newest buckets of both tiers, each once. Rows of one time keep this order. */
  ghost predicate Queried(rows: seq<Point>, raw: seq<Point>, medium: seq<Point>, long: seq<Point>, t: Tables,
                          serverID: string, name: string, from: Option<Time>, earliest: Option<Time>, limit: nat)
    requires Counted(t.medium) && Counted(t.long)
  {
    && raw == Last(Sort(RawPoints(t.raw, serverID, name, from), NotLater), limit)
    && NewestOf(medium, TierPoints(t.medium, QuarterHour, serverID, name, from, None), limit) && NoRepeats(medium)
    && NewestOf(long, TierPoints(t.long, SixHours, serverID, name, from, earliest), limit) && NoRepeats(long)
    && rows == Sort(raw + (medium + long), NotLater)
  }

  lemma RawIsRaw(raw: seq<Sample>, serverID: string, name: string, from: Option<Time>, p: Point)
    requires p in RawPoints(raw, serverID, name, from)
    ensures p.resolution == Raw
  {
    RawPointsMeaning(raw, serverID, name, from, p);
  }

  lemma MixedMeaning(rows: seq<Point>, raw: seq<Point>, medium: seq<Point>, long: seq<Point>, t: Tables,
                     serverID: string, name: string, from: Option<Time>, earliest: Option<Time>, limit: nat)
    requires Counted(t.medium) && Counted(t.long)
    requires Queried(rows, raw, medium, long, t, serverID, name, from, earliest, limit)
    requires NewestOf(raw, Elements(RawPoints(t.raw, serverID, name, from)), limit)
    ensures Mixed(rows) <==> medium + long != []
  {
    hide Sort, RawPoints, Counted;
    SortedMembers(raw + (medium + long), rows);
    forall p | p in raw ensures p.resolution == Raw { RawIsRaw(t.raw, serverID, name, from, p); }
    if medium + long != [] { assert (medium + long)[0] in rows; }
  }

  lemma SelectedSize(rows: seq<Point>, out: seq<Point>, at: seq<nat>, mixed: bool, limit: nat)
    requires Thinned(rows, out, at) && Selects(at, |rows|, mixed, limit)
    ensures |out| == if |rows| <= limit then |rows| else limit
  {
  }

  lemma ThinnedKeepsAll(rows: seq<Point>, out: seq<Point>, at: seq<nat>, mixed: bool, limit: nat)
    requires Thinned(rows, out, at) && Selects(at, |rows|, mixed, limit) && |out| < limit
    ensures out == rows
  {
  }

  /** The point shows the bucket: its average, its range and how many samples it stands for. */
  ghost predicate Shows(q: Point, b: Bucket, a: Aggregate) {
    && q.series == b.series && q.at == b.start && q.samples == a.count > 0
    && q.value * q.samples as real == a.sum && q.range == Some((a.minimum, a.maximum))
  }

  /** What a point of the history stands for in the tables. */
  ghost predicate ReadFrom(q: Point, t: Tables, serverID: string, name: string, from: Option<Time>,
                           earliest: Option<Time>) {
    && q.series.serverID == serverID && q.series.name == name && (from.Some? ==> from.value <= q.at)
    && match q.resolution
       case Raw =>
         && q.range == None && q.samples == 0
         && exists m :: m in t.raw && m.series == q.series && m.at == q.at && m.value == q.value
       case QuarterHour => exists b :: b in t.medium && Shows(q, b, t.medium[b])
       case SixHours =>
         && (earliest.Some? ==> q.at < earliest.value)
         && exists b :: b in t.long && Shows(q, b, t.long[b])
  }

  lemma ShownOnce(q: Point, b: Bucket, a: Aggregate)
    requires a.count > 0
    ensures q == BucketPoint(b, a, q.resolution) <==> Shows(q, b, a)
  {
    var mean := a.sum / a.count as real;
    assert mean * a.count as real == a.sum;
    if Shows(q, b, a) {
      SameProduct(q.value, mean, a.count as real);
    }
  }

  lemma SameProduct(x: real, y: real, m: real)
    requires m > 0.0 && x * m == y * m
    ensures x == y
  {
  }

  lemma TierPointsMeaning(tier: Tier, resolution: Resolution, serverID: string, name: string, from: Option<Time>,
                          before: Option<Time>, q: Point)
    requires Counted(tier)
    ensures q in TierPoints(tier, resolution, serverID, name, from, before) <==>
              && q.resolution == resolution && q.series.serverID == serverID && q.series.name == name
              && (from.Some? ==> from.value <= q.at) && (before.Some? ==> q.at < before.value)
              && exists b :: b in tier && Shows(q, b, tier[b])
  {
    forall b | b in tier ensures q == BucketPoint(b, tier[b], q.resolution) <==> Shows(q, b, tier[b]) {
      ShownOnce(q, b, tier[b]);
    }
    hide Shows;
  }

  /** The points a caller may see are exactly the stored samples and buckets asked for. */
  lemma AllPointsMeaning(t: Tables, serverID: string, name: string, from: Option<Time>, earliest: Option<Time>,
                         q: Point)
    requires Counted(t.medium) && Counted(t.long)
    ensures q in AllPoints(t, serverID, name, from, earliest) <==> ReadFrom(q, t, serverID, name, from, earliest)
  {
    RawPointsMeaning(t.raw, serverID, name, from, q);
    TierPointsMeaning(t.medium, QuarterHour, serverID, name, from, None, q);
    TierPointsMeaning(t.long, SixHours, serverID, name, from, earliest, q);
    hide TierPoints, RawPoints, Shows, Counted;
  }

  lemma PointsAreRead(t: Tables, serverID: string, name: string, from: Option<Time>, earliest: Option<Time>,
                      out: seq<Point>, limit: nat)
    requires Counted(t.medium) && Counted(t.long)
    requires forall p :: p in out ==> p in AllPoints(t, serverID, name, from, earliest)
    requires |out| < limit ==> forall p :: p in AllPoints(t, serverID, name, from, earliest) ==> p in out
    ensures forall p :: p in out ==> ReadFrom(p, t, serverID, name, from, earliest)
    ensures |out| < limit ==> forall p :: ReadFrom(p, t, serverID, name, from, earliest) ==> p in out
  {
    hide AllPoints, ReadFrom, Counted;
    forall p
      ensures p in AllPoints(t, serverID, name, from, earliest) <==> ReadFrom(p, t, serverID, name, from, earliest)
    {
      AllPointsMeaning(t, serverID, name, from, earliest, p);
    }
  }

  /** `ListMetrics`: of the rows queried, in time order, the newest or evenly spaced ones. No row is
      lost or repeated but by this selection. */
  method ListMetrics(t: Tables, serverID: string, name: string, from: Option<Time>, limit: nat)
    returns (out: seq<Point>, ghost earliest: Option<Time>, ghost rows: seq<Point>, ghost at: seq<nat>)
    requires Counted(t.medium) && Counted(t.long)
    ensures IsEarliest(t.medium, serverID, name, earliest)
    ensures exists raw, medium, long :: Queried(rows, raw, medium, long, t, serverID, name, from, earliest, limit)
    ensures Thinned(rows, out, at) && Selects(at, |rows|, Mixed(rows), limit)
    ensures |out| <= limit && forall i, j :: 0 <= i < j < |out| ==> out[i].at <= out[j].at
    ensures forall p :: p in out ==> ReadFrom(p, t, serverID, name, from, earliest)
    ensures limit > 0 ==> KeepsNewest(out, AllPoints(t, serverID, name, from, earliest))
    ensures |out| < limit ==> forall p :: ReadFrom(p, t, serverID, name, from, earliest) ==> p in out
  {
    hide ReadFrom;
    hide IsEarliest, TierPoints, RawPoints, NewestOf, NoRepeats, Counted, Sort, Selects, Mixed, Thinned;
    var raw := QueryRaw(t.raw, serverID, name, from, limit);
    var bound := EarliestMedium(t.medium, serverID, name);
    earliest := bound;
    var medium := QueryTier(t.medium, QuarterHour, serverID, name, from, None, limit);
    var long := QueryTier(t.long, SixHours, serverID, name, from, bound, limit);
    ghost var all := AllPoints(t, serverID, name, from, earliest);
    var aggregates := medium + long;
    var found := raw + aggregates;
    QueriesCover(raw, medium, long, Elements(RawPoints(t.raw, serverID, name, from)),
                 TierPoints(t.medium, QuarterHour, serverID, name, from, None),
                 TierPoints(t.long, SixHours, serverID, name, from, bound), limit);
    TimeOrder();
    SortSorts(found, NotLater);
    var sorted := Sort(found, NotLater);
    rows := sorted;
    assert Queried(rows, raw, medium, long, t, serverID, name, from, earliest, limit);
    MixedMeaning(rows, raw, medium, long, t, serverID, name, from, earliest, limit);
    SortedMembers(found, sorted);
    if limit > 0 {
      SortedKeepsNewest(found, sorted, all, limit);
    }
    out, at := Trim(sorted, |aggregates| > 0, limit);
    SelectedSize(rows, out, at, Mixed(rows), limit);
    ThinnedIsSorted(rows, out, at);
    if |out| < limit {
      ThinnedKeepsAll(rows, out, at, Mixed(rows), limit);
    }
    PointsAreRead(t, serverID, name, from, earliest, out, limit);
  }

  lemma ExactIsCounted(tier: Tier, seconds: nat, removed: seq<Sample>, cutoff: int)
    requires IsWidth(seconds) && Exact(tier, seconds, removed, cutoff)
    ensures Counted(tier) && AveragesFit(tier)
  {
    hide Summary, Aligned;
    forall b | b in tier
      ensures tier[b].count > 0 && tier[b].minimum <= tier[b].sum / tier[b].count as real <= tier[b].maximum
    {
      assert Lookup(tier, b) == Summary(removed, b.series, b.start, b.start + seconds);
      SumWithinBounds(removed, b.series, b.start, b.start + seconds);
      QuotientFits(tier[b].minimum, tier[b].sum, tier[b].maximum, tier[b].count);
    }
  }

  lemma QuotientFits(lo: real, sum: real, hi: real, n: nat)
    requires n > 0 && lo * n as real <= sum <= hi * n as real
    ensures lo <= sum / n as real <= hi
  {
    var mean := sum / n as real;
    assert mean * n as real == sum;
  }

  /** The average a history shows for a bucket lies between the bucket's minimum and maximum. */
  ghost predicate AveragesFit(tier: Tier) {
    forall b :: b in tier && tier[b].count > 0 ==>
      tier[b].minimum <= tier[b].sum / tier[b].count as real <= tier[b].maximum
  }

  /** Every state a run reaches meets what `ListMetrics` asks of its tables, and every average it
      shows lies within the range it shows. */
  lemma ReachableTiersAreCounted(trace: seq<World>, p: Policy)
    requires ValidPolicy(p) && Run(trace, p)
    ensures var t := trace[|trace| - 1].tables;
            Counted(t.medium) && Counted(t.long) && AveragesFit(t.medium) && AveragesFit(t.long)
  {
    RunKeepsInv(trace, p);
    var w := trace[|trace| - 1];
    hide Exact, Counted, AveragesFit, Conserved;
    if w.last.Some? {
      ExactIsCounted(w.tables.medium, MEDIUM_SECONDS, w.removed, w.last.value - p.medium);
      ExactIsCounted(w.tables.long, LONG_SECONDS, w.removed, w.last.value - p.long);
    } else {
      EmptyIsCounted();
    }
  }

  lemma EmptyIsCounted()
    ensures Counted(map[]) && AveragesFit(map[])
  {
  }

  lemma BucketIsSummary(tier: Tier, seconds: nat, removed: seq<Sample>, cutoff: int, q: Point, b: Bucket)
    requires IsWidth(seconds) && Exact(tier, seconds, removed, cutoff) && b in tier && Shows(q, b, tier[b])
    ensures Summarises(q, removed, seconds)
  {
    hide Summary, CountIn, SumIn, Aligned;
    assert Lookup(tier, b) == Summary(removed, b.series, b.start, b.start + seconds);
    SummaryMeaning(removed, b.series, b.start, b.start + seconds);
    SumWithinBounds(removed, b.series, b.start, b.start + seconds);
    QuotientFits(tier[b].minimum, tier[b].sum, tier[b].maximum, tier[b].count);
    ShownOnce(q, b, tier[b]);
  }

  /** The point is the average of the removed samples of its series in the seconds from its time on,
      shown with their number and their least and greatest values. */
  ghost predicate Summarises(q: Point, removed: seq<Sample>, seconds: nat) {
    && q.samples == CountIn(removed, q.series, q.at, q.at + seconds) > 0
    && q.value * q.samples as real == SumIn(removed, q.series, q.at, q.at + seconds)
    && q.range.Some? && q.range.value.0 <= q.value <= q.range.value.1
    && (forall m :: m in removed && m.series == q.series && q.at <= m.at < q.at + seconds ==>
          q.range.value.0 <= m.value <= q.range.value.1)
    && (exists m :: m in removed && m.series == q.series && q.at <= m.at < q.at + seconds && m.value == q.range.value.0)
    && (exists m :: m in removed && m.series == q.series && q.at <= m.at < q.at + seconds && m.value == q.range.value.1)
  }

  /** Over all runs: every point of the history is a sample still stored, or the average of all samples
      removed from its quarter hour or six hours. */
  lemma HistoryPointsOverAllRuns(trace: seq<World>, p: Policy, serverID: string, name: string, from: Option<Time>,
                                 earliest: Option<Time>, q: Point)
    requires ValidPolicy(p) && Run(trace, p) && ReadFrom(q, trace[|trace| - 1].tables, serverID, name, from, earliest)
    ensures var w := trace[|trace| - 1];
            match q.resolution
            case Raw => exists m :: m in w.tables.raw && m.series == q.series && m.at == q.at && m.value == q.value
            case QuarterHour => q.at % 900 == 0 && Summarises(q, w.removed, 900)
            case SixHours => q.at % 21600 == 0 && Summarises(q, w.removed, 21600)
  {
    RunKeepsInv(trace, p);
    var w := trace[|trace| - 1];
    hide Shows, Summarises, Conserved, Summary;
    if q.resolution == QuarterHour {
      var b :| b in w.tables.medium && Shows(q, b, w.tables.medium[b]);
      BucketIsSummary(w.tables.medium, MEDIUM_SECONDS, w.removed, w.last.value - p.medium, q, b);
      ShownStart(q, b, w.tables.medium[b]);
    } else if q.resolution == SixHours {
      var b :| b in w.tables.long && Shows(q, b, w.tables.long[b]);
      BucketIsSummary(w.tables.long, LONG_SECONDS, w.removed, w.last.value - p.long, q, b);
      ShownStart(q, b, w.tables.long[b]);
    }
  }

  lemma ShownStart(q: Point, b: Bucket, a: Aggregate)
    requires Shows(q, b, a)
    ensures q.at == b.start
  {
  }

  // ---- no gap between the tiers ----

  /** The seconds a bucket of either tier covers. */
  function Width(resolution: Resolution): nat {
    match resolution
    case Raw => 1
    case QuarterHour => MEDIUM_SECONDS
    case SixHours => LONG_SECONDS
  }

  /** The point stands for the sample: same series, a range of time and of values that holds it. */
  predicate StandsFor(q: Point, m: Sample) {
    && q.series == m.series && q.at <= m.at < q.at + Width(q.resolution)
    && q.samples > 0 && q.range.Some? && q.range.value.0 <= m.value <= q.range.value.1
  }

  /** The bucket of a removed sample in one tier, while the tier still reaches that far. */
  lemma RemovedIsInBucket(tier: Tier, seconds: nat, removed: seq<Sample>, cutoff: int, m: Sample)
    requires IsWidth(seconds) && Exact(tier, seconds, removed, cutoff)
    requires m in removed && BucketOf(m, seconds).start >= cutoff
    ensures var b := BucketOf(m, seconds);
            && b in tier && b.series == m.series && b.start <= m.at < b.start + seconds
            && tier[b].count > 0 && tier[b].minimum <= m.value <= tier[b].maximum
  {
    hide Summary, CountIn, SumIn;
    var b := BucketOf(m, seconds);
    BucketHolds(m, seconds, b);
    assert Lookup(tier, b) == Summary(removed, b.series, b.start, b.start + seconds);
    SummaryMeaning(removed, b.series, b.start, b.start + seconds);
    SumWithinBounds(removed, b.series, b.start, b.start + seconds);
  }

  lemma MediumInsideLong(m: Sample)
    ensures BucketOf(m, LONG_SECONDS).start <= BucketOf(m, MEDIUM_SECONDS).start
  {
    assert m.at / 900 * 900 >= 900 * (24 * (m.at / 21600)) by { assert m.at / 900 >= 24 * (m.at / 21600); }
  }

  lemma LongIsListed(t: Tables, removed: seq<Sample>, cutoff: int, m: Sample, from: Option<Time>,
                     earliest: Option<Time>)
    returns (q: Point)
    requires Counted(t.medium) && Counted(t.long) && Exact(t.long, LONG_SECONDS, removed, cutoff)
    requires m in removed && BucketOf(m, LONG_SECONDS).start >= cutoff
    requires from.Some? ==> BucketOf(m, LONG_SECONDS).start >= from.value
    requires earliest.Some? ==> BucketOf(m, LONG_SECONDS).start < earliest.value
    ensures q in AllPoints(t, m.series.serverID, m.series.name, from, earliest)
    ensures q.resolution == SixHours && StandsFor(q, m)
  {
    var b := BucketOf(m, LONG_SECONDS);
    RemovedIsInBucket(t.long, LONG_SECONDS, removed, cutoff, m);
    hide Exact, RawPoints, BucketOf;
    q := BucketPoint(b, t.long[b], SixHours);
    assert q in TierPoints(t.long, SixHours, m.series.serverID, m.series.name, from, earliest);
  }

  lemma MediumIsListed(t: Tables, removed: seq<Sample>, cutoff: int, m: Sample, from: Option<Time>,
                       earliest: Option<Time>)
    returns (q: Point)
    requires Counted(t.medium) && Counted(t.long) && Exact(t.medium, MEDIUM_SECONDS, removed, cutoff)
    requires m in removed && BucketOf(m, MEDIUM_SECONDS).start >= cutoff
    requires from.Some? ==> BucketOf(m, MEDIUM_SECONDS).start >= from.value
    ensures q in AllPoints(t, m.series.serverID, m.series.name, from, earliest)
    ensures q.resolution == QuarterHour && StandsFor(q, m)
  {
    var b := BucketOf(m, MEDIUM_SECONDS);
    RemovedIsInBucket(t.medium, MEDIUM_SECONDS, removed, cutoff, m);
    hide Exact, RawPoints, BucketOf;
    q := BucketPoint(b, t.medium[b], QuarterHour);
    assert q in TierPoints(t.medium, QuarterHour, m.series.serverID, m.series.name, from, None);
  }

  lemma EarliestIsRetained(tier: Tier, removed: seq<Sample>, cutoff: int, serverID: string, name: string,
                           earliest: Time)
    requires Exact(tier, MEDIUM_SECONDS, removed, cutoff) && IsEarliest(tier, serverID, name, Some(earliest))
    ensures earliest >= cutoff
  {
    hide Summary;
  }

  /** Over all runs, hiding the long buckets from the oldest medium one on hides no data: every
      sample deleted from raw whose six hours start inside the long window is in a point of the
      history, a long bucket before that bound and a medium one from there on. */
  lemma HistoryHidesNothing(trace: seq<World>, p: Policy, m: Sample, from: Option<Time>, earliest: Option<Time>)
    returns (q: Point)
    requires ValidPolicy(p) && Run(trace, p) && trace[|trace| - 1].last.Some?
    requires IsEarliest(trace[|trace| - 1].tables.medium, m.series.serverID, m.series.name, earliest)
    requires m in trace[|trace| - 1].removed
    requires BucketOf(m, LONG_SECONDS).start >= trace[|trace| - 1].last.value - p.long
    requires from.Some? ==> BucketOf(m, LONG_SECONDS).start >= from.value
    ensures Counted(trace[|trace| - 1].tables.medium) && Counted(trace[|trace| - 1].tables.long)
    ensures q in AllPoints(trace[|trace| - 1].tables, m.series.serverID, m.series.name, from, earliest) &&
              StandsFor(q, m)
    ensures Summarises(q, trace[|trace| - 1].removed, if q.resolution == SixHours then 21600 else 900)
    ensures q.resolution == if earliest.None? || BucketOf(m, LONG_SECONDS).start < earliest.value
              then SixHours else QuarterHour
  {
    RunKeepsInv(trace, p);
    ReachableTiersAreCounted(trace, p);
    var w := trace[|trace| - 1];
    var now := w.last.value;
    hide Exact, Conserved, AllPoints, Counted, IsEarliest, BucketOf, StandsFor;
    if earliest.None? || BucketOf(m, LONG_SECONDS).start < earliest.value {
      q := LongIsListed(w.tables, w.removed, now - p.long, m, from, earliest);
    } else {
      EarliestIsRetained(w.tables.medium, w.removed, now - p.medium, m.series.serverID, m.series.name, earliest.value);
      MediumInsideLong(m);
      q := MediumIsListed(w.tables, w.removed, now - p.medium, m, from, earliest);
    }
    AllPointsMeaning(w.tables, m.series.serverID, m.series.name, from, earliest, q);
    hide ReadFrom, Run, Summarises;
    HistoryPointsOverAllRuns(trace, p, m.series.serverID, m.series.name, from, earliest, q);
  }
}
