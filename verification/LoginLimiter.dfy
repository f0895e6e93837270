/** The login rate limiter: fixed counting windows per client in a bounded map, with one shared
    overflow entry once the map is full. */
module LoginLimiter {
  import opened Models

  const OVERFLOW := "__overflow__"

  datatype Limits = Limits(maxAttempts: nat, window: Time, maxClients: nat)

  predicate ValidLimits(l: Limits) {
    l.maxAttempts > 0 && l.window > 0 && l.maxClients > 0
  }

  /** A counting window: when it started and what it has granted. */
  datatype Entry = Entry(started: Time, count: nat)

  type Attempts = map<string, Entry>

  predicate Expired(e: Entry, now: Time, l: Limits) {
    now - e.started >= l.window
  }

  function Pruned(attempts: Attempts, now: Time, l: Limits): Attempts {
    map key | key in attempts && !Expired(attempts[key], now, l) :: attempts[key]
  }

  /** The entry that counts for a client. */
  function KeyFor(pruned: Attempts, address: string, l: Limits): string {
    if address !in pruned && |pruned| >= l.maxClients then OVERFLOW else address
  }

  function EntryFor(pruned: Attempts, key: string, now: Time): Entry {
    if key in pruned then pruned[key] else Entry(now, 0)
  }

  predicate Granted(attempts: Attempts, address: string, now: Time, l: Limits) {
    var pruned := Pruned(attempts, now, l);
    EntryFor(pruned, KeyFor(pruned, address, l), now).count < l.maxAttempts
  }

  function AfterAttempt(attempts: Attempts, address: string, now: Time, l: Limits): Attempts {
    var pruned := Pruned(attempts, now, l);
    var key := KeyFor(pruned, address, l);
    var entry := EntryFor(pruned, key, now);
    if entry.count < l.maxAttempts then pruned[key := Entry(entry.started, entry.count + 1)] else pruned
  }

  /** One attempt at `now`: closed windows are forgotten; the client counts on its own entry if it has
      one or the map has room for one, and otherwise on the shared entry; the attempt is granted while
      that entry has attempts left, and then counted. */
  ghost predicate CountsAttempt(before: Attempts, after': Attempts, address: string, now: Time, l: Limits,
                                granted: bool)
  {
    var open := map k | k in before && before[k].started + l.window > now :: before[k];
    var key := if address in open || |open| < l.maxClients then address else OVERFLOW;
    var used := if key in open then open[key].count else 0;
    var started := if key in open then open[key].started else now;
    && (granted <==> used < l.maxAttempts)
    && after' == if granted then open[key := Entry(started, used + 1)] else open
  }

  lemma AttemptMeaning(attempts: Attempts, address: string, now: Time, l: Limits)
    ensures CountsAttempt(attempts, AfterAttempt(attempts, address, now, l), address, now, l,
                          Granted(attempts, address, now, l))
  {
    var open := map k | k in attempts && attempts[k].started + l.window > now :: attempts[k];
    assert Pruned(attempts, now, l) == open;
    hide Pruned;
  }

  class Manager {
    const limits: Limits
    var attempts: Attempts

    constructor (limits: Limits)
      ensures this.limits == limits && attempts == map[]
    {
      this.limits := limits;
      attempts := map[];
    }

    method PruneAttempts(now: Time)
      modifies this
      ensures attempts == Pruned(old(attempts), now, limits)
      ensures forall k :: k in attempts <==> k in old(attempts) && old(attempts)[k].started + limits.window > now
      ensures forall k :: k in attempts ==> attempts[k] == old(attempts)[k]
    {
      var left := attempts.Keys;
      ghost var start := attempts;
      while left != {}
        invariant left <= start.Keys
        invariant attempts == map key | key in start && (key in left || !Expired(start[key], now, limits)) :: start[key]
        decreases left
      {
        var key :| key in left;
        left := left - {key};
        if now - attempts[key].started >= limits.window {
          attempts := attempts - {key};
        }
      }
    }

    method AllowAttempt(address: string, now: Time) returns (granted: bool)
      requires ValidLimits(limits)
      modifies this
      ensures granted <==> Granted(old(attempts), address, now, limits)
      ensures attempts == AfterAttempt(old(attempts), address, now, limits)
      ensures CountsAttempt(old(attempts), attempts, address, now, limits, granted)
    {
      AttemptMeaning(attempts, address, now, limits);
      hide CountsAttempt;
      var key := address;
      PruneAttempts(now);
      if key !in attempts && |attempts| >= limits.maxClients {
        key := OVERFLOW;
      }
      var entry := Entry(now, 0);
      if key in attempts && now - attempts[key].started < limits.window {
        entry := attempts[key];
      }
      if entry.count >= limits.maxAttempts {
        return false;
      }
      entry := Entry(entry.started, entry.count + 1);
      attempts := attempts[key := entry];
      return true;
    }

    method ResetAttempts(address: string)
      modifies this
      ensures attempts == old(attempts) - {address}
    {
      attempts := attempts - {address};
    }
  }

  // ---- all runs ----

  /** A grant: the entry it was counted on, when, and in which window. */
  datatype Grant = Grant(key: string, at: Time, started: Time)

  /** `grants` remembers the grants of every entry since that entry was last reset. */
  datatype State = State(attempts: Attempts, grants: seq<Grant>, now: Time)

  function Without(grants: seq<Grant>, key: string): seq<Grant> {
    if grants == [] then []
    else
      var last := grants[|grants| - 1];
      Without(grants[..|grants| - 1], key) + if last.key == key then [] else [last]
  }

  ghost predicate Attempt(s: State, s': State, address: string, now: Time, l: Limits) {
    && address != OVERFLOW && s.now <= now && s'.now == now
    && s'.attempts == AfterAttempt(s.attempts, address, now, l)
    && var pruned := Pruned(s.attempts, now, l);
       var key := KeyFor(pruned, address, l);
       s'.grants == s.grants + if Granted(s.attempts, address, now, l)
         then [Grant(key, now, EntryFor(pruned, key, now).started)] else []
  }

  ghost predicate Reset(s: State, s': State, address: string) {
    && address != OVERFLOW
    && s' == State(s.attempts - {address}, Without(s.grants, address), s.now)
  }

  ghost predicate Next(s: State, s': State, l: Limits) {
    || (exists address, now :: Attempt(s, s', address, now, l))
    || (exists address :: Reset(s, s', address))
  }

  ghost predicate Run(trace: seq<State>, l: Limits) {
    && |trace| > 0 && trace[0].attempts == map[] && trace[0].grants == []
    && forall k :: 0 < k < |trace| ==> Next(trace[k - 1], trace[k], l)
  }

  /** Grants of one entry within one of its counting windows. */
  function CountWindow(grants: seq<Grant>, key: string, started: Time): nat {
    if grants == [] then 0
    else
      var last := grants[|grants| - 1];
      CountWindow(grants[..|grants| - 1], key, started) + if last.key == key && last.started == started then 1 else 0
  }

  /** Grants of one entry in the half-open span [from, to). */
  function CountSpan(grants: seq<Grant>, key: string, from: Time, to: Time): nat {
    if grants == [] then 0
    else
      var last := grants[|grants| - 1];
      CountSpan(grants[..|grants| - 1], key, from, to) + if last.key == key && from <= last.at < to then 1 else 0
  }

  ghost predicate GrantGood(g: Grant, s: State, l: Limits) {
    && g.started <= g.at < g.started + l.window && g.at <= s.now
    && (if g.key in s.attempts && s.attempts[g.key].started == g.started then true
        else g.started + l.window <= if g.key in s.attempts then s.attempts[g.key].started else s.now)
  }

  ghost predicate WindowsApart(grants: seq<Grant>, l: Limits) {
    forall g, h :: g in grants && h in grants && g.key == h.key && g.started < h.started ==>
      g.started + l.window <= h.started
  }

  /** A window starts with its first grant. */
  ghost predicate AllOpened(grants: seq<Grant>) {
    forall g :: g in grants ==> Grant(g.key, g.started, g.started) in grants
  }

  /** Each entry counts the grants of its window. */
  ghost predicate EntriesCount(s: State, l: Limits) {
    forall key :: key in s.attempts ==>
      && s.attempts[key].started <= s.now && 1 <= s.attempts[key].count <= l.maxAttempts
      && s.attempts[key].count == CountWindow(s.grants, key, s.attempts[key].started)
  }

  ghost predicate GrantsGood(s: State, l: Limits) {
    forall g :: g in s.grants ==> GrantGood(g, s, l)
  }

  ghost predicate WindowsLimited(grants: seq<Grant>, l: Limits) {
    forall key, started :: CountWindow(grants, key, started) <= l.maxAttempts
  }

  ghost predicate Fits(attempts: Attempts, l: Limits) {
    |attempts.Keys - {OVERFLOW}| <= l.maxClients
  }

  ghost predicate Inv(s: State, l: Limits) {
    && EntriesCount(s, l) && GrantsGood(s, l) && Fits(s.attempts, l)
    && WindowsApart(s.grants, l) && AllOpened(s.grants) && WindowsLimited(s.grants, l)
  }

  lemma PruneKeeps(s: State, now: Time, l: Limits)
    requires ValidLimits(l) && Inv(s, l) && s.now <= now
    ensures Inv(State(Pruned(s.attempts, now, l), s.grants, now), l)
  {
    hide CountWindow, WindowsApart, AllOpened, WindowsLimited;
    PruneKeepsGrants(s, now, l);
    Subset(Pruned(s.attempts, now, l).Keys - {OVERFLOW}, s.attempts.Keys - {OVERFLOW});
    hide GrantsGood;
  }

  lemma PruneKeepsGrants(s: State, now: Time, l: Limits)
    requires ValidLimits(l) && EntriesCount(s, l) && GrantsGood(s, l) && s.now <= now
    ensures GrantsGood(State(Pruned(s.attempts, now, l), s.grants, now), l)
  {
    hide CountWindow;
    forall g | g in s.grants ensures GrantGood(g, State(Pruned(s.attempts, now, l), s.grants, now), l) {
      assert GrantGood(g, s, l);
    }
  }

  lemma Subset<T>(a: set<T>, b: set<T>)
    requires a <= b
    ensures |a| <= |b|
  {
    assert |b| == |a| + |b - a| by { assert b == a + (b - a); }
  }

  lemma {:induction false} CountNone(grants: seq<Grant>, key: string, started: Time)
    requires forall g :: g in grants && g.key == key ==> g.started != started
    ensures CountWindow(grants, key, started) == 0
  {
    if grants != [] {
      var front, last := grants[..|grants| - 1], grants[|grants| - 1];
      assert last in grants;
      forall g | g in front ensures g in grants { }
      CountNone(front, key, started);
    }
  }

  lemma CountSnoc(grants: seq<Grant>, g: Grant, key: string, started: Time)
    ensures CountWindow(grants + [g], key, started) ==
              CountWindow(grants, key, started) + if g.key == key && g.started == started then 1 else 0
    ensures forall h :: h in grants + [g] <==> h in grants || h == g
  {
    assert (grants + [g])[..|grants + [g]| - 1] == grants;
  }

  /** The size bound after one more entry. */
  lemma RoomForOne(pruned: Attempts, address: string, entry: Entry, l: Limits)
    requires address != OVERFLOW && Fits(pruned, l)
    ensures Fits(pruned[KeyFor(pruned, address, l) := entry], l)
  {
    var key := KeyFor(pruned, address, l);
    var before, after' := pruned.Keys - {OVERFLOW}, pruned[key := entry].Keys - {OVERFLOW};
    if key == OVERFLOW || key in pruned {
      assert after' == before;
    } else {
      assert after' == before + {key};
      assert |pruned.Keys| == |pruned|;
      Subset(before, pruned.Keys);
    }
  }

  /** The new grant: its window is the entry's, its window has been opened, and no other window of
      the entry is near. */
  lemma GrantFits(s: State, key: string, l: Limits, grant: Grant)
    requires ValidLimits(l) && Inv(s, l) && grant == Grant(key, s.now, EntryFor(s.attempts, key, s.now).started)
    ensures WindowsApart(s.grants + [grant], l) && AllOpened(s.grants + [grant])
    ensures key !in s.attempts ==> CountWindow(s.grants, key, s.now) == 0
  {
    if key in s.attempts {
      var g := OneOf(s.grants, key, grant.started);
    } else {
      forall g | g in s.grants && g.key == key ensures g.started != s.now { assert GrantGood(g, s, l); }
      CountNone(s.grants, key, s.now);
    }
    hide CountWindow;
    assert forall g :: g in s.grants ==> GrantGood(g, s, l);
    CountSnoc(s.grants, grant, key, 0);
    forall g | g in s.grants + [grant] ensures Grant(g.key, g.started, g.started) in s.grants + [grant] { }
  }

  lemma {:induction false} OneOf(grants: seq<Grant>, key: string, started: Time) returns (g: Grant)
    requires CountWindow(grants, key, started) > 0
    ensures g in grants && g.key == key && g.started == started
  {
    var front, last := grants[..|grants| - 1], grants[|grants| - 1];
    if last.key == key && last.started == started {
      g := last;
    } else {
      g := OneOf(front, key, started);
    }
  }

  lemma GrantCounts(s: State, grant: Grant, l: Limits, s': State)
    requires ValidLimits(l) && EntriesCount(s, l) && WindowsLimited(s.grants, l)
    requires grant.key !in s.attempts ==> CountWindow(s.grants, grant.key, grant.started) == 0
    requires grant.started == EntryFor(s.attempts, grant.key, s.now).started &&
              EntryFor(s.attempts, grant.key, s.now).count < l.maxAttempts
    requires s'.attempts == s.attempts[grant.key :=
              Entry(grant.started, EntryFor(s.attempts, grant.key, s.now).count + 1)]
    requires s'.grants == s.grants + [grant] && s'.now == s.now
    ensures EntriesCount(s', l) && WindowsLimited(s'.grants, l)
  {
    hide CountWindow;
    forall k, started
      ensures CountWindow(s'.grants, k, started) ==
                CountWindow(s.grants, k, started) + if k == grant.key && started == grant.started then 1 else 0
    {
      CountSnoc(s.grants, grant, k, started);
    }
    forall k, started ensures CountWindow(s'.grants, k, started) <= l.maxAttempts {
      assert CountWindow(s.grants, k, started) <= l.maxAttempts;
    }
  }

  lemma GrantIsGood(s: State, grant: Grant, l: Limits, s': State)
    requires ValidLimits(l) && EntriesCount(s, l) && GrantsGood(s, l)
    requires forall k :: k in s.attempts ==> !Expired(s.attempts[k], s.now, l)
    requires grant == Grant(grant.key, s.now, EntryFor(s.attempts, grant.key, s.now).started)
    requires s'.attempts == s.attempts[grant.key :=
              Entry(grant.started, EntryFor(s.attempts, grant.key, s.now).count + 1)]
    requires s'.grants == s.grants + [grant] && s'.now == s.now
    ensures GrantsGood(s', l)
  {
    hide CountWindow;
    forall g | g in s'.grants ensures GrantGood(g, s', l) {
      if g != grant { assert GrantGood(g, s, l); }
    }
  }

  lemma GrantKeeps(s: State, grant: Grant, l: Limits, s': State)
    requires ValidLimits(l) && Inv(s, l) && (forall k :: k in s.attempts ==> !Expired(s.attempts[k], s.now, l))
    requires grant == Grant(grant.key, s.now, EntryFor(s.attempts, grant.key, s.now).started)
    requires EntryFor(s.attempts, grant.key, s.now).count < l.maxAttempts
    requires s'.attempts == s.attempts[grant.key :=
              Entry(grant.started, EntryFor(s.attempts, grant.key, s.now).count + 1)]
    requires s'.grants == s.grants + [grant] && s'.now == s.now && Fits(s'.attempts, l)
    ensures Inv(s', l)
  {
    hide CountWindow, EntriesCount, GrantsGood, WindowsApart, AllOpened, WindowsLimited, Fits;
    GrantFits(s, grant.key, l, grant);
    GrantCounts(s, grant, l, s');
    GrantIsGood(s, grant, l, s');
  }

  /** What an attempt does, relative to the pruned map. */
  lemma AttemptParts(s: State, s': State, address: string, now: Time, l: Limits)
    requires Attempt(s, s', address, now, l)
    ensures var pruned := Pruned(s.attempts, now, l);
            var key := KeyFor(pruned, address, l);
            var entry := EntryFor(pruned, key, now);
            && address != OVERFLOW && s.now <= now == s'.now
            && (forall k :: k in pruned ==> !Expired(pruned[k], now, l))
            && s'.attempts == (if entry.count < l.maxAttempts
                 then pruned[key := Entry(entry.started, entry.count + 1)] else pruned)
            && s'.grants == (if entry.count < l.maxAttempts
                 then s.grants + [Grant(key, now, entry.started)] else s.grants)
  {
    assert s.grants + [] == s.grants;
  }

  lemma AttemptKeeps(s: State, s': State, address: string, now: Time, l: Limits)
    requires ValidLimits(l) && Inv(s, l) && Attempt(s, s', address, now, l)
    ensures Inv(s', l)
  {
    hide *;
    AttemptParts(s, s', address, now, l);
    PruneKeeps(s, now, l);
    var pruned := Pruned(s.attempts, now, l);
    var mid := State(pruned, s.grants, now);
    var key := KeyFor(pruned, address, l);
    var entry := EntryFor(pruned, key, now);
    if entry.count < l.maxAttempts {
      PrunedFits(mid, l);
      RoomForOne(pruned, address, Entry(entry.started, entry.count + 1), l);
      GrantKeeps(mid, Grant(key, now, entry.started), l, s');
    } else {
      assert s' == mid;
    }
  }

  lemma PrunedFits(s: State, l: Limits)
    requires Inv(s, l)
    ensures Fits(s.attempts, l)
  {
    hide CountWindow;
  }

  lemma {:induction false} WithoutMeaning(grants: seq<Grant>, key: string, other: string, started: Time)
    ensures forall g :: g in Without(grants, key) <==> g in grants && g.key != key
    ensures CountWindow(Without(grants, key), other, started) ==
              if other == key then 0 else CountWindow(grants, other, started)
  {
    if grants != [] {
      var front, last := grants[..|grants| - 1], grants[|grants| - 1];
      WithoutMeaning(front, key, other, started);
      assert forall g :: g in grants <==> g in front || g == last;
      if last.key != key {
        CountSnoc(Without(front, key), last, other, started);
      } else {
        assert Without(front, key) + [] == Without(front, key);
      }
    }
  }

  lemma ResetKeepsWindows(s: State, s': State, address: string, l: Limits)
    requires Inv(s, l) && Reset(s, s', address)
    ensures WindowsApart(s'.grants, l) && AllOpened(s'.grants)
  {
    hide CountWindow, Without;
    WithoutMeaning(s.grants, address, "", 0);
  }

  lemma ResetKeepsCounts(s: State, s': State, address: string, l: Limits)
    requires EntriesCount(s, l) && WindowsLimited(s.grants, l) && Reset(s, s', address)
    ensures EntriesCount(s', l) && WindowsLimited(s'.grants, l)
  {
    hide CountWindow, Without;
    forall key, started
      ensures CountWindow(s'.grants, key, started) == if key == address then 0 else CountWindow(s.grants, key, started)
    {
      WithoutMeaning(s.grants, address, key, started);
    }
    forall key, started ensures CountWindow(s'.grants, key, started) <= l.maxAttempts {
      assert CountWindow(s.grants, key, started) <= l.maxAttempts;
    }
  }

  lemma ResetKeepsGrants(s: State, s': State, address: string, l: Limits)
    requires GrantsGood(s, l) && Reset(s, s', address)
    ensures GrantsGood(s', l)
  {
    hide Without;
    WithoutMeaning(s.grants, address, "", 0);
    forall g | g in s'.grants ensures GrantGood(g, s', l) { assert GrantGood(g, s, l); }
  }

  lemma ResetKeeps(s: State, s': State, address: string, l: Limits)
    requires Inv(s, l) && Reset(s, s', address)
    ensures Inv(s', l)
  {
    hide CountWindow, Without, WindowsApart, AllOpened, EntriesCount, WindowsLimited, GrantsGood;
    ResetKeepsWindows(s, s', address, l);
    ResetKeepsCounts(s, s', address, l);
    ResetKeepsGrants(s, s', address, l);
    Subset(s'.attempts.Keys - {OVERFLOW}, s.attempts.Keys - {OVERFLOW});
  }

  lemma {:induction false} RunKeepsInv(trace: seq<State>, l: Limits)
    requires ValidLimits(l) && Run(trace, l)
    ensures Inv(trace[|trace| - 1], l)
  {
    if |trace| > 1 {
      hide Inv, Attempt, Reset;
      RunKeepsInv(trace[..|trace| - 1], l);
      var s, s' := trace[|trace| - 2], trace[|trace| - 1];
      assert Next(s, s', l);
      if address, now :| Attempt(s, s', address, now, l) {
        AttemptKeeps(s, s', address, now, l);
      } else {
        var address :| Reset(s, s', address);
        ResetKeeps(s, s', address, l);
      }
    }
  }

  // ---- the theorems ----

  /** Grants of an entry in a span are grants of at most two of its windows. */
  lemma {:induction false} SpanWithinWindows(grants: seq<Grant>, key: string, from: Time, to: Time, a: Time, b: Time)
    requires forall g :: g in grants && g.key == key && from <= g.at < to ==> g.started == a || g.started == b
    ensures CountSpan(grants, key, from, to) <= CountWindow(grants, key, a) + CountWindow(grants, key, b)
  {
    if grants != [] {
      var front, last := grants[..|grants| - 1], grants[|grants| - 1];
      assert last in grants;
      forall g | g in front ensures g in grants { }
      SpanWithinWindows(front, key, from, to, a, b);
    }
  }

  /** Three windows of one entry cannot all reach into a span of one window's length. */
  lemma NoThreeWindows(g: Grant, h: Grant, i: Grant, s: State, from: Time, l: Limits)
    requires Inv(s, l) && g in s.grants && h in s.grants && i in s.grants && g.key == h.key == i.key
    requires from <= g.at < from + l.window && from <= h.at < from + l.window && from <= i.at < from + l.window
    ensures g.started == h.started || g.started == i.started || h.started == i.started
  {
    hide CountWindow;
    assert GrantGood(g, s, l) && GrantGood(h, s, l) && GrantGood(i, s, l);
  }

  /** ... and when one of the two windows opened before the span, its opening grant is not in it. */
  lemma {:induction false} SpanMissesOpener(grants: seq<Grant>, key: string, from: Time, to: Time, a: Time, b: Time,
                                            opener: Grant)
    requires forall g :: g in grants && g.key == key && from <= g.at < to ==> g.started == a || g.started == b
    requires opener in grants && opener.key == key && (opener.started == a || opener.started == b) && opener.at < from
    ensures CountSpan(grants, key, from, to) < CountWindow(grants, key, a) + CountWindow(grants, key, b)
  {
    var front, last := grants[..|grants| - 1], grants[|grants| - 1];
    assert last in grants;
    forall g | g in front ensures g in grants { }
    if last == opener {
      SpanWithinWindows(front, key, from, to, a, b);
    } else {
      assert opener in front;
      SpanMissesOpener(front, key, from, to, a, b, opener);
    }
  }

  /** Of two windows that reach into the span, the earlier one opened before it. */
  lemma EarlierOpened(s: State, g: Grant, h: Grant, from: Time, l: Limits) returns (opener: Grant)
    requires Inv(s, l) && g in s.grants && h in s.grants && g.key == h.key && g.started != h.started
    requires from <= g.at < from + l.window && from <= h.at < from + l.window
    ensures opener in s.grants && opener.key == g.key && (opener.started == g.started || opener.started == h.started) &&
              opener.at < from
  {
    hide CountWindow;
    assert GrantGood(g, s, l) && GrantGood(h, s, l);
    var first := if g.started < h.started then g else h;
    opener := Grant(first.key, first.started, first.started);
  }

  lemma SpanBound(s: State, key: string, from: Time, l: Limits)
    requires ValidLimits(l) && Inv(s, l)
    ensures CountSpan(s.grants, key, from, from + l.window) <= 2 * l.maxAttempts - 1
  {
    hide CountWindow, CountSpan, Inv;
    var to := from + l.window;
    if g, h :|
      && g in s.grants && g.key == key && from <= g.at < to
      && h in s.grants && h.key == key && from <= h.at < to && g.started != h.started
    {
      forall i | i in s.grants && i.key == key && from <= i.at < to
        ensures i.started == g.started || i.started == h.started
      {
        NoThreeWindows(g, h, i, s, from, l);
      }
      var opener := EarlierOpened(s, g, h, from, l);
      SpanMissesOpener(s.grants, key, from, to, g.started, h.started, opener);
      WindowBound(s, key, g.started, l);
      WindowBound(s, key, h.started, l);
    } else {
      var a := 0;
      if g :| g in s.grants && g.key == key && from <= g.at < to { a := g.started; }
      SpanWithinOne(s.grants, key, from, to, a);
      WindowBound(s, key, a, l);
    }
  }

  lemma {:induction false} SpanWithinOne(grants: seq<Grant>, key: string, from: Time, to: Time, a: Time)
    requires forall g :: g in grants && g.key == key && from <= g.at < to ==> g.started == a
    ensures CountSpan(grants, key, from, to) <= CountWindow(grants, key, a)
  {
    if grants != [] {
      var front, last := grants[..|grants| - 1], grants[|grants| - 1];
      assert last in grants;
      forall g | g in front ensures g in grants { }
      SpanWithinOne(front, key, from, to, a);
    }
  }

  lemma WindowBound(s: State, key: string, started: Time, l: Limits)
    requires Inv(s, l)
    ensures CountWindow(s.grants, key, started) <= l.maxAttempts
  {
    hide CountWindow;
  }

  /** Over any run with a clock that does not run backwards, between resets an entry grants at
      most `maxAttempts` per counting window and fewer than twice that in any span of one window's
      length, and the map holds at most one entry more than `maxClients`. */
  lemma LimiterOverAllRuns(trace: seq<State>, l: Limits, key: string, started: Time, from: Time)
    requires ValidLimits(l) && Run(trace, l)
    ensures var s := trace[|trace| - 1];
            && CountWindow(s.grants, key, started) <= l.maxAttempts
            && CountSpan(s.grants, key, from, from + l.window) <= 2 * l.maxAttempts - 1
            && |s.attempts| <= l.maxClients + 1
  {
    RunKeepsInv(trace, l);
    var s := trace[|trace| - 1];
    hide Inv, CountWindow, CountSpan;
    WindowBound(s, key, started, l);
    SpanBound(s, key, from, l);
    PrunedFits(s, l);
    Subset(s.attempts.Keys, (s.attempts.Keys - {OVERFLOW}) + {OVERFLOW});
    assert |s.attempts.Keys| == |s.attempts|;
  }

  // ---- the bound is reached ----

  /** The run has seen `n` grants of `key` in the span [from, to), `count` of them in the window
      that started last. */
  ghost predicate Granting(trace: seq<State>, l: Limits, key: string, started: Time, count: nat, from: Time, to: Time,
                           n: nat)
  {
    && Run(trace, l)
    && trace[|trace| - 1].attempts == (if count == 0 then map[] else map[key := Entry(started, count)])
    && CountSpan(trace[|trace| - 1].grants, key, from, to) == n
  }

  lemma SpanSnoc(grants: seq<Grant>, g: Grant, key: string, from: Time, to: Time)
    ensures CountSpan(grants + [g], key, from, to) ==
              CountSpan(grants, key, from, to) + if g.key == key && from <= g.at < to then 1 else 0
  {
    assert (grants + [g])[..|grants + [g]| - 1] == grants;
  }

  /** What one more attempt of `key` does when its window is still open or is over. */
  lemma ClientGranted(attempts: Attempts, started: Time, count: nat, at: Time, l: Limits, key: string)
    requires ValidLimits(l) && key != OVERFLOW &&
              attempts == (if count == 0 then map[] else map[key := Entry(started, count)])
    requires at >= started + l.window || (at >= started && count < l.maxAttempts)
    ensures Granted(attempts, key, at, l)
    ensures var (newStart, newCount) := if count == 0 || at >= started + l.window
              then (at, 1) else (started, count + 1);
            && KeyFor(Pruned(attempts, at, l), key, l) == key
            && EntryFor(Pruned(attempts, at, l), key, at).started == newStart
            && AfterAttempt(attempts, key, at, l) == map[key := Entry(newStart, newCount)]
  {
    var pruned := Pruned(attempts, at, l);
    assert pruned == if count == 0 || at >= started + l.window then map[] else attempts;
  }

  lemma RunGrows(trace: seq<State>, s: State, l: Limits)
    requires Run(trace, l) && Next(trace[|trace| - 1], s, l)
    ensures Run(trace + [s], l)
  {
    hide Next;
    var longer := trace + [s];
    forall k | 0 < k < |longer| ensures Next(longer[k - 1], longer[k], l) {
      if k < |trace| { assert longer[k] == trace[k]; }
    }
  }

  /** The step that grants `key` one more attempt. */
  lemma ClientStep(s: State, l: Limits, key: string, started: Time, count: nat, at: Time)
    returns (s': State, grant: Grant)
    requires ValidLimits(l) && key != OVERFLOW && s.now <= at
    requires s.attempts == (if count == 0 then map[] else map[key := Entry(started, count)])
    requires at >= started + l.window || (at >= started && count < l.maxAttempts)
    ensures Next(s, s', l) && s'.now == at && s'.grants == s.grants + [grant] && grant.key == key && grant.at == at
    ensures var (newStart, newCount) := if count == 0 || at >= started + l.window
              then (at, 1) else (started, count + 1);
            s'.attempts == map[key := Entry(newStart, newCount)]
  {
    ClientGranted(s.attempts, started, count, at, l, key);
    hide Granted, AfterAttempt, KeyFor, EntryFor, Pruned;
    grant := Grant(key, at, EntryFor(Pruned(s.attempts, at, l), key, at).started);
    s' := State(AfterAttempt(s.attempts, key, at, l), s.grants + [grant], at);
    assert Attempt(s, s', key, at, l);
  }

  lemma GrantingParts(trace: seq<State>, l: Limits, key: string, started: Time, count: nat, from: Time, to: Time,
                      n: nat)
    requires Granting(trace, l, key, started, count, from, to, n)
    ensures |trace| > 0 && Run(trace, l)
    ensures trace[|trace| - 1].attempts == (if count == 0 then map[] else map[key := Entry(started, count)])
    ensures CountSpan(trace[|trace| - 1].grants, key, from, to) == n
  {
    hide CountSpan, Next;
  }

  lemma GrantingIs(trace: seq<State>, l: Limits, key: string, started: Time, count: nat, from: Time, to: Time, n: nat)
    requires |trace| > 0 && Run(trace, l) && count > 0
    requires trace[|trace| - 1].attempts == map[key := Entry(started, count)]
    requires CountSpan(trace[|trace| - 1].grants, key, from, to) == n
    ensures Granting(trace, l, key, started, count, from, to, n)
  {
    hide CountSpan, Run;
  }

  /** One more grant at `at`, in the window of the last ones or a new one. */
  lemma OneMoreGrant(trace: seq<State>, l: Limits, key: string, started: Time, count: nat, from: Time, to: Time,
                     n: nat, at: Time)
    returns (longer: seq<State>)
    requires ValidLimits(l) && key != OVERFLOW
    requires Granting(trace, l, key, started, count, from, to, n) && trace[|trace| - 1].now <= at
    requires at >= started + l.window || (at >= started && count < l.maxAttempts)
    ensures |longer| == |trace| + 1 && longer[|trace|].now == at
    ensures var (newStart, newCount) := if count == 0 || at >= started + l.window
              then (at, 1) else (started, count + 1);
            Granting(longer, l, key, newStart, newCount, from, to, n + if from <= at < to then 1 else 0)
  {
    var s := trace[|trace| - 1];
    GrantingParts(trace, l, key, started, count, from, to, n);
    hide *;
    var s', grant := ClientStep(s, l, key, started, count, at);
    SpanSnoc(s.grants, grant, key, from, to);
    RunGrows(trace, s', l);
    longer := trace + [s'];
    assert longer[|longer| - 1] == s';
    if count == 0 || at >= started + l.window {
      GrantingIs(longer, l, key, at, 1, from, to, n + if from <= at < to then 1 else 0);
    } else {
      GrantingIs(longer, l, key, started, count + 1, from, to, n + if from <= at < to then 1 else 0);
    }
  }

  /** `more` further grants at one moment of an open window. */
  lemma {:induction false} Burst(trace: seq<State>, l: Limits, key: string, started: Time, count: nat,
                                 from: Time, to: Time, n: nat, at: Time, more: nat)
    returns (longer: seq<State>)
    requires ValidLimits(l) && key != OVERFLOW
    requires Granting(trace, l, key, started, count, from, to, n) && trace[|trace| - 1].now <= at
    requires 0 < count && count + more <= l.maxAttempts && started <= at < started + l.window && from <= at < to
    ensures Granting(longer, l, key, started, count + more, from, to, n + more) && longer[|longer| - 1].now <= at
    decreases more
  {
    hide Granting, ValidLimits;
    if more == 0 {
      longer := trace;
    } else {
      var shorter := Burst(trace, l, key, started, count, from, to, n, at, more - 1);
      assert Granting(shorter, l, key, started, count + more - 1, from, to, n + more - 1);
      longer := OneMoreGrant(shorter, l, key, started, count + more - 1, from, to, n + more - 1, at);
    }
  }

  lemma NothingGranted(l: Limits, key: string, from: Time, to: Time) returns (trace: seq<State>)
    ensures Granting(trace, l, key, 0, 0, from, to, 0) && trace[|trace| - 1].now == 0
  {
    trace := [State(map[], [], 0)];
  }

  /** `l` lets one client through `n` times within some span of one window's length. */
  ghost predicate Reaches(l: Limits, key: string, n: int) {
    exists trace, from :: SeesInSpan(trace, l, key, from, n)
  }

  ghost predicate SeesInSpan(trace: seq<State>, l: Limits, key: string, from: Time, n: int) {
    Run(trace, l) && CountSpan(trace[|trace| - 1].grants, key, from, from + l.window) == n
  }

  /** One grant opens a window; the others come at its very end, and then a full window follows. */
  lemma LateBurstReaches(l: Limits, key: string)
    requires ValidLimits(l) && key != OVERFLOW && l.window >= 2
    ensures Reaches(l, key, 2 * l.maxAttempts - 1)
  {
    var m, w := l.maxAttempts, l.window;
    var trace := NothingGranted(l, key, 1, 1 + w);
    trace := OneMoreGrant(trace, l, key, 0, 0, 1, 1 + w, 0, 0);
    trace := Burst(trace, l, key, 0, 1, 1, 1 + w, 0, w - 1, m - 1);
    trace := OneMoreGrant(trace, l, key, 0, m, 1, 1 + w, m - 1, w);
    trace := Burst(trace, l, key, w, 1, 1, 1 + w, m, w, m - 1);
    assert SeesInSpan(trace, l, key, 1, 2 * m - 1);
  }

  lemma SingleGrantReaches(l: Limits, key: string)
    requires ValidLimits(l) && key != OVERFLOW && l.maxAttempts == 1
    ensures Reaches(l, key, 1)
  {
    var trace := NothingGranted(l, key, 0, l.window);
    trace := OneMoreGrant(trace, l, key, 0, 0, 0, l.window, 0, 0);
    assert SeesInSpan(trace, l, key, 0, 1);
  }

  /** A window of one tick lies inside every span it reaches into. */
  lemma TickWindowBound(trace: seq<State>, l: Limits, key: string, from: Time)
    requires ValidLimits(l) && l.window == 1 && Run(trace, l)
    ensures CountSpan(trace[|trace| - 1].grants, key, from, from + 1) <= l.maxAttempts
  {
    RunKeepsInv(trace, l);
    var s := trace[|trace| - 1];
    hide CountWindow, CountSpan, Run;
    forall g | g in s.grants && g.key == key && from <= g.at < from + 1 ensures g.started == from {
      assert GrantGood(g, s, l);
    }
    SpanWithinOne(s.grants, key, from, from + 1, from);
    WindowBound(s, key, from, l);
  }

  /** Whether the bound on a span of one window's length can be reached: for all limits but those
      with a window of a single clock tick and more than one attempt. */
  lemma SpanBoundIsReached(l: Limits, key: string)
    requires ValidLimits(l) && key != OVERFLOW
    ensures Reaches(l, key, 2 * l.maxAttempts - 1) <==> l.window >= 2 || l.maxAttempts == 1
  {
    if l.window >= 2 {
      LateBurstReaches(l, key);
    } else if l.maxAttempts == 1 {
      SingleGrantReaches(l, key);
    } else if Reaches(l, key, 2 * l.maxAttempts - 1) {
      var trace, from :| SeesInSpan(trace, l, key, from, 2 * l.maxAttempts - 1);
      TickWindowBound(trace, l, key, from);
    }
  }
}
