/** Tiered metric retention: raw samples age into 15-minute and 6-hour buckets and are then
    deleted. The buckets stay an exact summary of everything ever removed from their range. */
module MetricRetention {
  import opened Models

  const MEDIUM_SECONDS: nat := 15 * 60
  const LONG_SECONDS: nat := 6 * 60 * 60

  datatype Series = Series(serverID: string, database: string, name: string, labels: string)
  datatype Sample = Sample(series: Series, at: nat, value: real)
  datatype Aggregate = Aggregate(minimum: real, maximum: real, sum: real, count: nat)

  /** The key of an aggregate row within its tier. */
  datatype Bucket = Bucket(series: Series, start: nat)

  type Tier = map<Bucket, Aggregate>

  /** The tables `metrics` and `metric_aggregates`. */
  datatype Tables = Tables(raw: seq<Sample>, medium: Tier, long: Tier)

  datatype Policy = Policy(raw: Time, medium: Time, long: Time)

  predicate ValidPolicy(p: Policy) {
    3600 <= p.raw <= p.medium <= p.long
  }

  // ---- aggregates ----

  function Min(a: real, b: real): real { if b < a then b else a }
  function Max(a: real, b: real): real { if b > a then b else a }

  /** The upsert arithmetic; `None` stands for no row. */
  function Join(a: Option<Aggregate>, b: Option<Aggregate>): Option<Aggregate> {
    match (a, b)
    case (None, _) => b
    case (_, None) => a
    case (Some(x), Some(y)) =>
      Some(Aggregate(Min(x.minimum, y.minimum), Max(x.maximum, y.maximum), x.sum + y.sum, x.count + y.count))
  }

  predicate Within(m: Sample, series: Series, lo: int, hi: int) {
    m.series == series && lo <= m.at < hi
  }

  /** MIN, MAX, SUM and COUNT of one series over the seconds [lo, hi). */
  function Summary(samples: seq<Sample>, series: Series, lo: int, hi: int): Option<Aggregate> {
    if samples == [] then None
    else
      var last := samples[|samples| - 1];
      Join(Summary(samples[..|samples| - 1], series, lo, hi),
           if Within(last, series, lo, hi) then Some(Aggregate(last.value, last.value, last.value, 1)) else None)
  }

  function BucketOf(m: Sample, seconds: nat): Bucket
    requires seconds > 0
  {
    Bucket(m.series, m.at / seconds * seconds)
  }

  function Before(samples: seq<Sample>, cutoff: int): seq<Sample> {
    if samples == [] then []
    else
      var last := samples[|samples| - 1];
      Before(samples[..|samples| - 1], cutoff) + if last.at < cutoff then [last] else []
  }

  function NotBefore(samples: seq<Sample>, cutoff: int): seq<Sample> {
    if samples == [] then []
    else
      var last := samples[|samples| - 1];
      NotBefore(samples[..|samples| - 1], cutoff) + if last.at < cutoff then [] else [last]
  }

  // ---- the statements of the maintenance transaction ----

  /** SELECT ... WHERE from <= collected_at < to GROUP BY series, bucket. */
  function Grouped(raw: seq<Sample>, seconds: nat, from: int, to: int): Tier
    requires seconds > 0
  {
    var rows := Before(NotBefore(raw, from), to);
    map b | b in Buckets(rows, seconds) && Summary(rows, b.series, b.start, b.start + seconds).Some? ::
      Summary(rows, b.series, b.start, b.start + seconds).value
  }

  function Buckets(rows: seq<Sample>, seconds: nat): set<Bucket>
    requires seconds > 0
  {
    set m | m in rows :: BucketOf(m, seconds)
  }

  function Lookup(tier: Tier, b: Bucket): Option<Aggregate> {
    if b in tier then Some(tier[b]) else None
  }

  /** INSERT ... ON CONFLICT DO UPDATE with the merged minimum, maximum, sum and count. */
  function Merged(tier: Tier, more: Tier): Tier {
    map b | b in tier.Keys + more.Keys :: Join(Lookup(tier, b), Lookup(more, b)).value
  }

  function RolledUp(tier: Tier, raw: seq<Sample>, seconds: nat, from: int, to: int): Tier
    requires seconds > 0
  {
    Merged(tier, Grouped(raw, seconds, from, to))
  }

  function Kept(tier: Tier, cutoff: int): Tier {
    map b | b in tier && b.start >= cutoff :: tier[b]
  }

  function Saved(t: Tables, samples: seq<Sample>): Tables {
    t.(raw := t.raw + samples)
  }

  /** The upsert of one tier, told apart by its bucket width. */
  function WithTier(t: Tables, seconds: nat, from: int, to: int): Tables
    requires seconds > 0
  {
    if seconds == MEDIUM_SECONDS then t.(medium := RolledUp(t.medium, t.raw, seconds, from, to))
    else t.(long := RolledUp(t.long, t.raw, seconds, from, to))
  }

  function TiersDone(t: Tables, n: nat, from: int, to: int): Tables {
    if n == 0 then t
    else WithTier(TiersDone(t, n - 1, from, to), if n == 1 then MEDIUM_SECONDS else LONG_SECONDS, from, to)
  }

  /** The three DELETEs. */
  function Expired(t: Tables, now: Time, p: Policy): Tables {
    Tables(NotBefore(t.raw, now - p.raw), Kept(t.medium, now - p.medium), Kept(t.long, now - p.long))
  }

  /** One committed maintenance run. */
  function Pruned(t: Tables, now: Time, p: Policy): Tables {
    Expired(TiersDone(t, 2, now - p.long, now - p.raw), now, p)
  }

  /** The loop over the two tiers. */
  method RollUpTiers(tables: Tables, from: int, to: int) returns (t: Tables)
    ensures t == TiersDone(tables, 2, from, to)
  {
    hide RolledUp;
    var tiers := [MEDIUM_SECONDS, LONG_SECONDS];
    t := tables;
    for i := 0 to 2
      invariant t == TiersDone(tables, i, from, to)
    {
      t := WithTier(t, tiers[i], from, to);
    }
  }

  class Store {
    var tables: Tables

    /** `SaveMetrics`: one INSERT per sample in one transaction. */
    method SaveMetrics(samples: seq<Sample>)
      modifies this
      ensures tables == Saved(old(tables), samples)
      ensures tables.raw == old(tables).raw + samples
      ensures tables.medium == old(tables).medium && tables.long == old(tables).long
    {
      var t := tables;
      for i := 0 to |samples|
        invariant t == Saved(tables, samples[..i])
      {
        assert samples[..i + 1] == samples[..i] + [samples[i]];
        t := t.(raw := t.raw + [samples[i]]);
      }
      assert samples[..|samples|] == samples;
      tables := t;
    }

    method PruneMonitoringHistory(now: Time, snapshotRetention: Time, maxSnapshotsPerResource: int, p: Policy)
      returns (ok: bool)
      modifies this
      ensures ok <==>
                && snapshotRetention > 0 && maxSnapshotsPerResource >= 10
                && 3600 <= p.raw && p.raw <= p.medium && p.medium <= p.long
      ensures tables == if ok then Pruned(old(tables), now, p) else old(tables)
    {
      if snapshotRetention <= 0 || maxSnapshotsPerResource < 10 || !ValidPolicy(p) {
        return false;
      }
      var t := tables;
      var rawCutoff, longCutoff := now - p.raw, now - p.long;
      t := RollUpTiers(t, longCutoff, rawCutoff);
      t := t.(raw := NotBefore(t.raw, rawCutoff));
      t := t.(medium := Kept(t.medium, now - p.medium));
      t := t.(long := Kept(t.long, longCutoff));
      tables := t;
      ok := true;
    }
  }

  // ---- what a summary is ----

  function CountIn(samples: seq<Sample>, series: Series, lo: int, hi: int): nat {
    if samples == [] then 0
    else CountIn(samples[..|samples| - 1], series, lo, hi) + if Within(samples[|samples| - 1], series, lo, hi)
      then 1 else 0
  }

  function SumIn(samples: seq<Sample>, series: Series, lo: int, hi: int): real {
    if samples == [] then 0.0
    else SumIn(samples[..|samples| - 1], series, lo, hi) + if Within(samples[|samples| - 1], series, lo, hi)
      then samples[|samples| - 1].value else 0.0
  }

  lemma {:induction false} SummaryMeaning(samples: seq<Sample>, series: Series, lo: int, hi: int)
    ensures var s := Summary(samples, series, lo, hi);
            && (s.None? <==> forall m :: m in samples ==> !Within(m, series, lo, hi))
            && (s.Some? ==>
                  s.value.count == CountIn(samples, series, lo, hi) && s.value.sum == SumIn(samples, series, lo, hi))
            && (s.Some? ==> forall m :: m in samples && Within(m, series, lo, hi) ==>
                  s.value.minimum <= m.value <= s.value.maximum)
            && (s.Some? ==> exists m :: m in samples && Within(m, series, lo, hi) && m.value == s.value.minimum)
            && (s.Some? ==> exists m :: m in samples && Within(m, series, lo, hi) && m.value == s.value.maximum)
            && (s.None? ==> CountIn(samples, series, lo, hi) == 0 && SumIn(samples, series, lo, hi) == 0.0)
  {
    if samples != [] {
      var front, last := samples[..|samples| - 1], samples[|samples| - 1];
      SummaryMeaning(front, series, lo, hi);
      assert forall m :: m in samples <==> m in front || m == last;
    }
  }

  /** One more value within wider bounds, for `m` values whose sum lies between theirs. */
  lemma SumStep(least: real, lo: real, sum: real, hi: real, most: real, m: real, value: real)
    requires m >= 0.0 && lo * m <= sum <= hi * m && least <= lo && hi <= most && least <= value <= most
    ensures least * (m + 1.0) <= sum + value <= most * (m + 1.0)
  {
    TimesMonotone(least, lo, m);
    TimesMonotone(hi, most, m);
    OneMoreTime(least, m);
    OneMoreTime(most, m);
  }

  lemma TimesMonotone(x: real, y: real, m: real)
    requires x <= y && m >= 0.0
    ensures x * m <= y * m
  {
  }

  lemma OneMoreTime(x: real, m: real)
    ensures x * (m + 1.0) == x * m + x
  {
  }

  /** The sum lies between the bounds times the count. */
  predicate SumFits(a: Aggregate) {
    && a.count > 0 && a.minimum <= a.maximum
    && a.minimum * a.count as real <= a.sum <= a.maximum * a.count as real
  }

  function One(value: real): Aggregate {
    Aggregate(value, value, value, 1)
  }

  lemma OneFits(value: real)
    ensures SumFits(One(value))
  {
  }

  lemma OneMoreFits(a: Aggregate, value: real)
    requires SumFits(a)
    ensures SumFits(Join(Some(a), Some(One(value))).value)
  {
    var c := Join(Some(a), Some(One(value))).value;
    var m := a.count as real;
    assert c.count as real == m + 1.0;
    SumStep(c.minimum, a.minimum, a.sum, a.maximum, c.maximum, m, value);
  }

  lemma {:induction false} SumWithinBounds(samples: seq<Sample>, series: Series, lo: int, hi: int)
    ensures Summary(samples, series, lo, hi).Some? ==> SumFits(Summary(samples, series, lo, hi).value)
  {
    hide SumFits, Within;
    if samples != [] {
      var front, last := samples[..|samples| - 1], samples[|samples| - 1];
      SumWithinBounds(front, series, lo, hi);
      OneFits(last.value);
      var had := Summary(front, series, lo, hi);
      if had.Some? { OneMoreFits(had.value, last.value); }
    }
  }

  lemma {:induction false} SummaryConcat(a: seq<Sample>, b: seq<Sample>, series: Series, lo: int, hi: int)
    ensures Summary(a + b, series, lo, hi) == Join(Summary(a, series, lo, hi), Summary(b, series, lo, hi))
  {
    if b == [] {
      assert a + b == a;
    } else {
      SummaryConcat(a, b[..|b| - 1], series, lo, hi);
      assert (a + b)[..|a + b| - 1] == a + b[..|b| - 1];
    }
  }

  lemma {:induction false} SummarySplit(s: seq<Sample>, series: Series, lo: int, mid: int, hi: int)
    requires lo <= mid <= hi
    ensures Summary(s, series, lo, hi) == Join(Summary(s, series, lo, mid), Summary(s, series, mid, hi))
  {
    if s != [] { SummarySplit(s[..|s| - 1], series, lo, mid, hi); }
  }

  lemma SummarySnoc(s: seq<Sample>, m: Sample, series: Series, lo: int, hi: int)
    ensures Summary(s + [m], series, lo, hi) ==
            Join(Summary(s, series, lo, hi), if Within(m, series, lo, hi)
              then Some(Aggregate(m.value, m.value, m.value, 1)) else None)
  {
    assert (s + [m])[..|s + [m]| - 1] == s;
  }

  lemma JoinRight(a: Option<Aggregate>, b: Option<Aggregate>, c: Option<Aggregate>)
    ensures Join(Join(a, b), c) == Join(a, Join(b, c)) == Join(Join(a, c), b)
  {
  }

  /** Deleting the old rows splits the table in two. */
  lemma {:induction false} SummaryPartition(s: seq<Sample>, cutoff: int, series: Series, lo: int, hi: int)
    ensures Summary(s, series, lo, hi) ==
              Join(Summary(Before(s, cutoff), series, lo, hi), Summary(NotBefore(s, cutoff), series, lo, hi))
  {
    if s != [] {
      var front, last := s[..|s| - 1], s[|s| - 1];
      var older, newer := Before(front, cutoff), NotBefore(front, cutoff);
      SummaryPartition(front, cutoff, series, lo, hi);
      var one := if Within(last, series, lo, hi) then Some(Aggregate(last.value, last.value, last.value, 1)) else None;
      JoinRight(Summary(older, series, lo, hi), Summary(newer, series, lo, hi), one);
      assert older + [] == older && newer + [] == newer;
      if last.at < cutoff {
        SummarySnoc(older, last, series, lo, hi);
      } else {
        SummarySnoc(newer, last, series, lo, hi);
      }
    }
  }

  lemma {:induction false} SummaryOfOld(s: seq<Sample>, cutoff: int, series: Series, lo: int, hi: int)
    requires cutoff <= lo
    ensures Summary(Before(s, cutoff), series, lo, hi) == None
  {
    if s != [] {
      var front, last := s[..|s| - 1], s[|s| - 1];
      SummaryOfOld(front, cutoff, series, lo, hi);
      SummarySnoc(Before(front, cutoff), last, series, lo, hi);
      assert Before(front, cutoff) + [] == Before(front, cutoff);
    }
  }

  // ---- exactness ----

  predicate IsWidth(seconds: nat) {
    seconds == MEDIUM_SECONDS || seconds == LONG_SECONDS
  }

  predicate Aligned(b: Bucket, seconds: nat)
    requires IsWidth(seconds)
  {
    b.start % seconds == 0
  }

  lemma MediumFloor(at: nat, start: nat)
    ensures at / 900 * 900 % 900 == 0
    ensures start % 900 == 0 ==> (at / 900 * 900 == start <==> start <= at < start + 900)
  {
  }

  lemma LongFloor(at: nat, start: nat)
    ensures at / 21600 * 21600 % 21600 == 0
    ensures start % 21600 == 0 ==> (at / 21600 * 21600 == start <==> start <= at < start + 21600)
  {
  }

  lemma BucketHolds(m: Sample, seconds: nat, b: Bucket)
    requires IsWidth(seconds)
    ensures Aligned(BucketOf(m, seconds), seconds)
    ensures Aligned(b, seconds) ==> (BucketOf(m, seconds) == b <==> Within(m, b.series, b.start, b.start + seconds))
  {
    if seconds == 900 { MediumFloor(m.at, b.start); } else { LongFloor(m.at, b.start); }
  }

  /** The tier holds exactly the summaries of `removed`, for every aligned bucket from `cutoff` on. */
  ghost predicate Exact(tier: Tier, seconds: nat, removed: seq<Sample>, cutoff: int)
    requires IsWidth(seconds)
  {
    && (forall b :: b in tier ==> b.start >= cutoff && Aligned(b, seconds))
    && (forall b: Bucket {:trigger Lookup(tier, b)} :: b.start >= cutoff && Aligned(b, seconds) ==>
          Lookup(tier, b) == Summary(removed, b.series, b.start, b.start + seconds))
  }

  lemma BucketsMeaning(rows: seq<Sample>, seconds: nat, b: Bucket)
    requires IsWidth(seconds)
    ensures b in Buckets(rows, seconds) ==> Aligned(b, seconds)
    ensures Aligned(b, seconds) ==>
              (b in Buckets(rows, seconds) <==> Summary(rows, b.series, b.start, b.start + seconds).Some?)
  {
    hide Summary, BucketOf, Aligned, Within;
    SummaryMeaning(rows, b.series, b.start, b.start + seconds);
    forall m | m in rows
      ensures Aligned(BucketOf(m, seconds), seconds)
      ensures Aligned(b, seconds) ==> (BucketOf(m, seconds) == b <==> Within(m, b.series, b.start, b.start + seconds))
    {
      BucketHolds(m, seconds, b);
    }
  }

  lemma PruneBucket(tier: Tier, seconds: nat, removed: seq<Sample>, raw: seq<Sample>, from: int, to: int, b: Bucket)
    requires IsWidth(seconds) && from <= b.start && from <= to && Aligned(b, seconds)
    requires Lookup(tier, b) == Summary(removed, b.series, b.start, b.start + seconds)
    ensures Lookup(RolledUp(tier, raw, seconds, from, to), b) ==
              Summary(removed + Before(raw, to), b.series, b.start, b.start + seconds)
  {
    hide Summary, Before, NotBefore, Aligned, Buckets;
    var rows := Before(NotBefore(raw, from), to);
    BucketsMeaning(rows, seconds, b);
    assert Lookup(Grouped(raw, seconds, from, to), b) == Summary(rows, b.series, b.start, b.start + seconds);
    RolledRows(raw, from, to, b.series, b.start, b.start + seconds);
    SummaryConcat(removed, Before(raw, to), b.series, b.start, b.start + seconds);
  }

  lemma RolledUpAligned(tier: Tier, raw: seq<Sample>, seconds: nat, from: int, to: int, b: Bucket)
    requires IsWidth(seconds) && b in RolledUp(tier, raw, seconds, from, to) && b !in tier
    ensures Aligned(b, seconds)
  {
    hide Summary, Before, NotBefore, Aligned, Buckets, Join;
    BucketsMeaning(Before(NotBefore(raw, from), to), seconds, b);
  }

  lemma KeptLookup(tier: Tier, cutoff: int, b: Bucket)
    ensures b in Kept(tier, cutoff) <==> b in tier && b.start >= cutoff
    ensures b.start >= cutoff ==> Lookup(Kept(tier, cutoff), b) == Lookup(tier, b)
    ensures b in tier <==> Lookup(tier, b).Some?
  {
  }

  /** One maintenance run keeps a tier exact, whatever has been saved in between. */
  lemma PruneKeepsExact(tier: Tier, tier': Tier, seconds: nat, removed: seq<Sample>, removed': seq<Sample>, cutoff: int,
                        raw: seq<Sample>, from: int, to: int, cutoff': int)
    requires IsWidth(seconds) && Exact(tier, seconds, removed, cutoff)
    requires cutoff <= cutoff' && from <= cutoff' && from <= to
    requires tier' == Kept(RolledUp(tier, raw, seconds, from, to), cutoff') && removed' == removed + Before(raw, to)
    ensures Exact(tier', seconds, removed', cutoff')
  {
    hide Summary, Before, Kept, RolledUp, Aligned, Lookup;
    var rolled := RolledUp(tier, raw, seconds, from, to);
    forall b | b in tier' ensures b.start >= cutoff' && Aligned(b, seconds) {
      KeptLookup(rolled, cutoff', b);
      if b !in tier { RolledUpAligned(tier, raw, seconds, from, to, b); }
    }
    forall b: Bucket | b.start >= cutoff' && Aligned(b, seconds)
      ensures Lookup(tier', b) == Summary(removed', b.series, b.start, b.start + seconds)
    {
      assert Lookup(tier, b) == Summary(removed, b.series, b.start, b.start + seconds);
      PruneBucket(tier, seconds, removed, raw, from, to, b);
      KeptLookup(rolled, cutoff', b);
    }
  }

  /** Rows older than the long cutoff are dropped without being rolled up, but no surviving
      bucket covers them. */
  lemma RolledRows(raw: seq<Sample>, from: int, to: int, series: Series, lo: int, hi: int)
    requires from <= lo && from <= to
    ensures Summary(Before(NotBefore(raw, from), to), series, lo, hi) == Summary(Before(raw, to), series, lo, hi)
  {
    BeforeBoth(raw, from, to);
    SummaryPartition(Before(raw, to), from, series, lo, hi);
    SummaryOfOld(Before(raw, to), from, series, lo, hi);
  }

  lemma {:induction false} BeforeBoth(raw: seq<Sample>, from: int, to: int)
    ensures Before(NotBefore(raw, from), to) == NotBefore(Before(raw, to), from)
  {
    if raw != [] {
      var front, last := raw[..|raw| - 1], raw[|raw| - 1];
      BeforeBoth(front, from, to);
      assert NotBefore(front, from) + [] == NotBefore(front, from) && Before(front, to) + [] == Before(front, to);
      BeforeSnoc(NotBefore(front, from), last, to);
      BeforeSnoc(Before(front, to), last, from);
    }
  }

  lemma BeforeSnoc(s: seq<Sample>, m: Sample, cutoff: int)
    ensures Before(s + [m], cutoff) == Before(s, cutoff) + if m.at < cutoff then [m] else []
    ensures NotBefore(s + [m], cutoff) == NotBefore(s, cutoff) + if m.at < cutoff then [] else [m]
  {
    assert (s + [m])[..|s + [m]| - 1] == s;
  }

  lemma PrunedParts(t: Tables, now: Time, p: Policy)
    ensures Pruned(t, now, p).raw == NotBefore(t.raw, now - p.raw)
    ensures Pruned(t, now, p).medium ==
              Kept(RolledUp(t.medium, t.raw, MEDIUM_SECONDS, now - p.long, now - p.raw), now - p.medium)
    ensures Pruned(t, now, p).long ==
              Kept(RolledUp(t.long, t.raw, LONG_SECONDS, now - p.long, now - p.raw), now - p.long)
  {
    hide Kept, Merged, Join, Summary, Before, NotBefore;
    assert TiersDone(t, 1, now - p.long, now - p.raw) == WithTier(t, MEDIUM_SECONDS, now - p.long, now - p.raw);
  }

  /** What the deletes leave: the raw samples from the raw cutoff on, each as often as it was stored,
      and no bucket that starts before the cutoff of its tier. */
  lemma RetainedMeaning(t: Tables, now: Time, p: Policy, m: Sample, b: Bucket)
    ensures var r := Pruned(t, now, p);
            && multiset(r.raw)[m] == (if m.at >= now - p.raw then multiset(t.raw)[m] else 0)
            && (b in r.medium ==> b.start >= now - p.medium) && (b in r.long ==> b.start >= now - p.long)
  {
    hide Merged, Join, Summary, Before, NotBefore;
    PrunedParts(t, now, p);
    NotBeforeCounts(t.raw, now - p.raw, m);
    hide RolledUp;
  }

  lemma {:induction false} NotBeforeCounts(raw: seq<Sample>, cutoff: int, m: Sample)
    ensures multiset(NotBefore(raw, cutoff))[m] == if m.at >= cutoff then multiset(raw)[m] else 0
  {
    if raw != [] {
      var front, last := raw[..|raw| - 1], raw[|raw| - 1];
      NotBeforeCounts(front, cutoff, m);
      assert raw == front + [last];
      assert multiset(NotBefore(front, cutoff) + []) == multiset(NotBefore(front, cutoff));
    }
  }

  // ---- all runs ----

  /** `saved` and `removed` remember every sample ever saved and every sample deleted from raw. */
  datatype World = World(tables: Tables, saved: seq<Sample>, removed: seq<Sample>, last: Option<Time>)

  ghost predicate Save(w: World, w': World, samples: seq<Sample>) {
    w' == w.(tables := Saved(w.tables, samples), saved := w.saved + samples)
  }

  /** Maintenance under a fixed policy and a clock that does not run backwards. */
  ghost predicate Prune(w: World, w': World, p: Policy, now: Time) {
    && (w.last.Some? ==> w.last.value <= now)
    && w' == World(Pruned(w.tables, now, p), w.saved, w.removed + Before(w.tables.raw, now - p.raw), Some(now))
  }

  ghost predicate Next(w: World, w': World, p: Policy) {
    || (exists samples :: Save(w, w', samples))
    || (exists now :: Prune(w, w', p, now))
  }

  ghost predicate Run(trace: seq<World>, p: Policy) {
    && |trace| > 0 && trace[0] == World(Tables([], map[], map[]), [], [], None)
    && forall k :: 0 < k < |trace| ==> Next(trace[k - 1], trace[k], p)
  }

  ghost predicate Conserved(w: World) {
    forall series, lo, hi :: Summary(w.saved, series, lo, hi) ==
      Join(Summary(w.removed, series, lo, hi), Summary(w.tables.raw, series, lo, hi))
  }

  ghost predicate ExactAt(w: World, p: Policy, now: Time) {
    && Exact(w.tables.medium, MEDIUM_SECONDS, w.removed, now - p.medium)
    && Exact(w.tables.long, LONG_SECONDS, w.removed, now - p.long)
  }

  /** Before the first maintenance the empty tiers are exact from any cutoff on. */
  ghost predicate Inv(w: World, p: Policy) {
    && Conserved(w)
    && (if w.last.Some? then ExactAt(w, p, w.last.value)
        else w.tables.medium == map[] && w.tables.long == map[] && w.removed == [])
  }

  lemma SaveKeepsInv(w: World, w': World, p: Policy, samples: seq<Sample>)
    requires Inv(w, p) && Save(w, w', samples)
    ensures Inv(w', p)
  {
    forall series, lo, hi
      ensures Summary(w'.saved, series, lo, hi) ==
                Join(Summary(w'.removed, series, lo, hi), Summary(w'.tables.raw, series, lo, hi))
    {
      SummaryConcat(w.saved, samples, series, lo, hi);
      SummaryConcat(w.tables.raw, samples, series, lo, hi);
      JoinRight(Summary(w.removed, series, lo, hi), Summary(w.tables.raw, series, lo, hi),
        Summary(samples, series, lo, hi));
    }
  }

  lemma DeleteConserves(saved: seq<Sample>, removed: seq<Sample>, raw: seq<Sample>, cutoff: int, series: Series,
                        lo: int, hi: int)
    requires Summary(saved, series, lo, hi) == Join(Summary(removed, series, lo, hi), Summary(raw, series, lo, hi))
    ensures Summary(saved, series, lo, hi) ==
            Join(Summary(removed + Before(raw, cutoff), series, lo, hi),
              Summary(NotBefore(raw, cutoff), series, lo, hi))
  {
    SummaryConcat(removed, Before(raw, cutoff), series, lo, hi);
    SummaryPartition(raw, cutoff, series, lo, hi);
    JoinRight(Summary(removed, series, lo, hi), Summary(Before(raw, cutoff), series, lo, hi),
      Summary(NotBefore(raw, cutoff), series, lo, hi));
  }

  lemma PruneConserves(w: World, w': World, p: Policy, now: Time)
    requires Conserved(w) && Prune(w, w', p, now)
    ensures Conserved(w')
  {
    hide Summary, Join, Before, NotBefore, Pruned;
    PrunedParts(w.tables, now, p);
    forall series, lo, hi
      ensures Summary(w'.saved, series, lo, hi) ==
                Join(Summary(w'.removed, series, lo, hi), Summary(w'.tables.raw, series, lo, hi))
    {
      DeleteConserves(w.saved, w.removed, w.tables.raw, now - p.raw, series, lo, hi);
    }
  }

  lemma PruneExact(t: Tables, t': Tables, removed: seq<Sample>, removed': seq<Sample>, p: Policy, last: Time, now: Time)
    requires ValidPolicy(p) && last <= now
    requires Exact(t.medium, MEDIUM_SECONDS, removed, last - p.medium) &&
              Exact(t.long, LONG_SECONDS, removed, last - p.long)
    requires t' == Pruned(t, now, p) && removed' == removed + Before(t.raw, now - p.raw)
    ensures Exact(t'.medium, MEDIUM_SECONDS, removed', now - p.medium)
    ensures Exact(t'.long, LONG_SECONDS, removed', now - p.long)
  {
    hide Kept, Merged, Join, Summary, Before, NotBefore;
    PrunedParts(t, now, p);
    PruneKeepsExact(t.medium, t'.medium, MEDIUM_SECONDS, removed, removed', last - p.medium, t.raw, now - p.long,
      now - p.raw, now - p.medium);
    PruneKeepsExact(t.long, t'.long, LONG_SECONDS, removed, removed', last - p.long, t.raw, now - p.long, now - p.raw,
      now - p.long);
  }

  /** Before the first maintenance nothing is rolled up and nothing removed. */
  lemma EmptyExact(seconds: nat, cutoff: int)
    requires IsWidth(seconds)
    ensures Exact(map[], seconds, [], cutoff)
  {
  }

  lemma NextKeepsInv(w: World, w': World, p: Policy)
    requires ValidPolicy(p) && Inv(w, p) && Next(w, w', p)
    ensures Inv(w', p)
  {
    hide Kept, Merged, Join, Summary, Before, NotBefore;
    if samples :| Save(w, w', samples) {
      SaveKeepsInv(w, w', p, samples);
    } else {
      var now :| Prune(w, w', p, now);
      PruneConserves(w, w', p, now);
      EmptyExact(MEDIUM_SECONDS, now - p.medium);
      EmptyExact(LONG_SECONDS, now - p.long);
      PruneExact(w.tables, w'.tables, w.removed, w'.removed, p, if w.last.Some? then w.last.value else now, now);
    }
  }

  lemma {:induction false} RunKeepsInv(trace: seq<World>, p: Policy)
    requires ValidPolicy(p) && Run(trace, p)
    ensures Inv(trace[|trace| - 1], p)
  {
    if |trace| > 1 {
      RunKeepsInv(trace[..|trace| - 1], p);
      NextKeepsInv(trace[|trace| - 2], trace[|trace| - 1], p);
    }
  }

  /** Over all runs, late samples and half-filled buckets included: a surviving bucket holds
      exactly the summary of what was deleted from its range, and together with the raw rows
      still there it accounts for every sample ever saved in that range. */
  lemma BucketsExactOverAllRuns(trace: seq<World>, p: Policy, b: Bucket)
    requires ValidPolicy(p) && Run(trace, p) && trace[|trace| - 1].last.Some?
    ensures var w := trace[|trace| - 1];
            var now := w.last.value;
            && (b in w.tables.medium ==> b.start >= now - p.medium && b.start % MEDIUM_SECONDS == 0)
            && (b in w.tables.long ==> b.start >= now - p.long && b.start % LONG_SECONDS == 0)
            && (b.start >= now - p.medium && b.start % MEDIUM_SECONDS == 0 ==>
                  && Lookup(w.tables.medium, b) == Summary(w.removed, b.series, b.start, b.start + MEDIUM_SECONDS)
                  && Join(Lookup(w.tables.medium, b),
                       Summary(w.tables.raw, b.series, b.start, b.start + MEDIUM_SECONDS)) ==
                     Summary(w.saved, b.series, b.start, b.start + MEDIUM_SECONDS))
            && (b.start >= now - p.long && b.start % LONG_SECONDS == 0 ==>
                  && Lookup(w.tables.long, b) == Summary(w.removed, b.series, b.start, b.start + LONG_SECONDS)
                  && Join(Lookup(w.tables.long, b), Summary(w.tables.raw, b.series, b.start, b.start + LONG_SECONDS)) ==
                     Summary(w.saved, b.series, b.start, b.start + LONG_SECONDS))
  {
    RunKeepsInv(trace, p);
  }

  /** The `n` medium buckets from `start` on, merged; missing rows count as nothing. */
  function MergedMedium(medium: Tier, series: Series, start: nat, n: nat): Option<Aggregate> {
    if n == 0 then None
    else Join(MergedMedium(medium, series, start, n - 1),
      Lookup(medium, Bucket(series, start + (n - 1) * MEDIUM_SECONDS)))
  }

  lemma StepAligned(start: nat, n: nat)
    requires start % MEDIUM_SECONDS == 0
    ensures (start + n * MEDIUM_SECONDS) % MEDIUM_SECONDS == 0
  {
  }

  lemma {:induction false} MergedMediumIsSummary(medium: Tier, removed: seq<Sample>, cutoff: int, series: Series,
                                                 start: nat, n: nat)
    requires Exact(medium, MEDIUM_SECONDS, removed, cutoff)
    requires start >= cutoff && start % MEDIUM_SECONDS == 0
    ensures MergedMedium(medium, series, start, n) == Summary(removed, series, start, start + n * MEDIUM_SECONDS)
  {
    if n == 0 {
      SummaryMeaning(removed, series, start, start);
    } else {
      hide Summary, Join, Within;
      MergedMediumIsSummary(medium, removed, cutoff, series, start, n - 1);
      var mid := start + (n - 1) * MEDIUM_SECONDS;
      StepAligned(start, n - 1);
      assert Lookup(medium, Bucket(series, mid)) == Summary(removed, series, mid, mid + MEDIUM_SECONDS);
      SummarySplit(removed, series, start, mid, mid + MEDIUM_SECONDS);
    }
  }

  lemma LongIsMedium(b: Bucket)
    requires b.start % LONG_SECONDS == 0
    ensures b.start % MEDIUM_SECONDS == 0 && Aligned(b, LONG_SECONDS)
  {
    assert b.start == 900 * (24 * (b.start / 21600));
  }

  lemma ExactTiersCohere(t: Tables, removed: seq<Sample>, mediumCutoff: int, longCutoff: int, b: Bucket)
    requires Exact(t.medium, MEDIUM_SECONDS, removed, mediumCutoff) && Exact(t.long, LONG_SECONDS, removed, longCutoff)
    requires longCutoff <= mediumCutoff <= b.start && b.start % LONG_SECONDS == 0
    ensures Lookup(t.long, b) == MergedMedium(t.medium, b.series, b.start, 24)
  {
    LongIsMedium(b);
    hide Summary, Join, MergedMedium, Aligned;
    MergedMediumIsSummary(t.medium, removed, mediumCutoff, b.series, b.start, 24);
  }

  /** Over all runs, a six-hour bucket inside the medium window is the merge of its twenty-four
      quarter-hour buckets. */
  lemma TiersCohereOverAllRuns(trace: seq<World>, p: Policy, b: Bucket)
    requires ValidPolicy(p) && Run(trace, p) && trace[|trace| - 1].last.Some?
    requires b.start % LONG_SECONDS == 0 && b.start >= trace[|trace| - 1].last.value - p.medium
    ensures var w := trace[|trace| - 1];
            Lookup(w.tables.long, b) == MergedMedium(w.tables.medium, b.series, b.start, 24)
  {
    hide Exact, Lookup, MergedMedium, Conserved;
    RunKeepsInv(trace, p);
    var w := trace[|trace| - 1];
    ExactTiersCohere(w.tables, w.removed, w.last.value - p.medium, w.last.value - p.long, b);
  }
}
