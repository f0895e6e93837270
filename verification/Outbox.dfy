/** The notification outbox: queueing a transition, trimming the history, picking due rows and
    recording the outcome of a send. */
module Outbox {
  import opened Models
  import opened Order
  import opened FindingLifecycle
  import opened Routing

  const HISTORY_LIMIT := 2000
  const MAX_ATTEMPTS := 3

  /** Stands for a fresh UUID: ids are handed out once. */
  type EventID = nat
  datatype Key = Key(event: EventID, destination: string)

  datatype DeliveryStatus = Pending | Retry | Delivered | Failed | Cooldown

  datatype Delivery = Delivery(status: DeliveryStatus, attempts: nat, deliveredAt: Option<Time>,
    nextAttemptAt: Option<Time>)

  datatype Event = Event(findingID: string, kind: Transition, finding: Finding, createdAt: Time)

  /** The tables `finding_notification_events` and `finding_notification_deliveries`. */
  datatype Tables = Tables(events: map<EventID, Event>, deliveries: map<Key, Delivery>, nextID: EventID)

  // ---- queueing ----

  function Targets(c: Config, f: Finding, kind: Transition): set<string> {
    if c.routes == [] then set d | d in c.destinations && Enabled(c, d)
    else set d | d in c.destinations && Enabled(c, d) && CooldownFor(c.routes, f, TagsOf(c, f.serverID), kind, d).Some?
  }

  /** A successful delivery to `d` about the same finding at or after `cutoff`. */
  predicate RecentlyDelivered(o: Tables, d: string, findingID: string, cutoff: Time) {
    exists k: Key :: k in o.deliveries && k.destination == d && k.event in o.events &&
      o.events[k.event].findingID == findingID &&
      o.deliveries[k].status == Delivered && o.deliveries[k].deliveredAt.Some? &&
        o.deliveries[k].deliveredAt.value >= cutoff
  }

  const FRESH := Delivery(Pending, 0, None, None)

  function FirstStatus(o: Tables, c: Config, f: Finding, kind: Transition, now: Time,
                       d: string): (status: DeliveryStatus)
    ensures status == Pending || status == Cooldown
  {
    var cooldown := if c.routes == [] then None else CooldownFor(c.routes, f, TagsOf(c, f.serverID), kind, d);
    if cooldown.Some? && cooldown.value > 0 && RecentlyDelivered(o, d, f.id, now - cooldown.value)
      then Cooldown else Pending
  }

  /** Nothing is queued for a muted finding, nor below High severity while no route exists. */
  predicate Silent(c: Config, f: Finding, now: Time) {
    Muted(c, f, now) || (c.routes == [] && SeverityRank(f.severity) < SeverityRank("HIGH"))
  }

  /** The event and its fan-out, before the history is trimmed. */
  function FannedOut(o: Tables, c: Config, f: Finding, kind: Transition, now: Time): Tables {
    Tables(o.events[o.nextID := Event(f.id, kind, f, now)],
           o.deliveries + map k | k in (set d | d in Targets(c, f, kind) :: Key(o.nextID, d)) ::
             FRESH.(status := FirstStatus(o, c, f, kind, now, k.destination)),
           o.nextID + 1)
  }

  function CreatedAt(o: Tables, k: Key): Time {
    if k.event in o.events then o.events[k.event].createdAt else 0
  }

  /** ORDER BY created_at DESC, destination_id. */
  predicate ComesFirst(o: Tables, k: Key, l: Key) {
    var a, b := CreatedAt(o, k), CreatedAt(o, l);
    a > b || (a == b && StringLe(k.destination, l.destination))
  }

  /** The `keep` first rows stay, the others go, and so does every event left without a row. */
  ghost predicate Trimmed(o: Tables, o': Tables, keep: nat) {
    && o'.nextID == o.nextID
    && (forall k: Key :: k in o'.deliveries ==> k in o.deliveries && o'.deliveries[k] == o.deliveries[k])
    && |o'.deliveries| == (if |o.deliveries| <= keep then |o.deliveries| else keep)
    && (forall k, l :: k in o'.deliveries && l in o.deliveries && l !in o'.deliveries ==> ComesFirst(o, k, l))
    && o'.events == map id | id in o.events && (exists k: Key :: k in o'.deliveries && k.event == id) :: o.events[id]
  }

  ghost predicate Queued(o: Tables, o': Tables, c: Config, f: Finding, kind: Transition, now: Time) {
    if Silent(c, f, now) then o' == o else Trimmed(FannedOut(o, c, f, kind, now), o', HISTORY_LIMIT)
  }

  // ---- sending ----

  predicate Due(r: Delivery, now: Time) {
    && (r.status == Pending || r.status == Retry) && r.attempts < MAX_ATTEMPTS
    && (r.nextAttemptAt.None? || r.nextAttemptAt.value <= now)
  }

  /** The wait after `attempts` failures: its square, in minutes. */
  function Backoff(attempts: nat): Time {
    attempts * attempts * 60
  }

  function AfterAttempt(r: Delivery, ok: bool, now: Time): Delivery {
    var attempts := r.attempts + 1;
    if ok then Delivery(Delivered, attempts, Some(now), None)
    else if attempts >= MAX_ATTEMPTS then r.(status := Failed, attempts := attempts, nextAttemptAt := None)
    else r.(status := Retry, attempts := attempts, nextAttemptAt := Some(now + Backoff(attempts)))
  }

  /** A row that has been trimmed in the meantime is not resurrected. */
  function Recorded(o: Tables, k: Key, ok: bool, now: Time): Tables {
    if k in o.deliveries then o.(deliveries := o.deliveries[k := AfterAttempt(o.deliveries[k], ok, now)]) else o
  }

  // ---- what the tables always satisfy ----

  predicate RowConsistent(r: Delivery) {
    match r.status
    case Pending => r.attempts == 0 && r.nextAttemptAt.None? && r.deliveredAt.None?
    case Cooldown => r.attempts == 0 && r.nextAttemptAt.None? && r.deliveredAt.None?
    case Retry => 1 <= r.attempts < MAX_ATTEMPTS && r.nextAttemptAt.Some? && r.deliveredAt.None?
    case Failed => r.attempts == MAX_ATTEMPTS && r.nextAttemptAt.None? && r.deliveredAt.None?
    case Delivered => 1 <= r.attempts <= MAX_ATTEMPTS && r.nextAttemptAt.None? && r.deliveredAt.Some?
  }

  ghost predicate Consistent(o: Tables) {
    && (forall id :: id in o.events ==> id < o.nextID)
    && (forall k: Key :: k in o.deliveries ==> k.event in o.events && RowConsistent(o.deliveries[k]))
  }

  /** After every commit: a bounded history without orphaned events. */
  ghost predicate Bounded(o: Tables) {
    && |o.deliveries| <= HISTORY_LIMIT
    && forall id :: id in o.events ==> exists k: Key :: k in o.deliveries && k.event == id
  }

  /** What a transaction other than recording an outcome may do: rows vanish or stay as they
      are, and new rows belong to new events and have not been tried. */
  ghost predicate Undisturbed(o: Tables, o': Tables) {
    && o.nextID <= o'.nextID
    && forall k: Key :: k in o'.deliveries ==>
         || (k in o.deliveries && o'.deliveries[k] == o.deliveries[k])
         || (k.event >= o.nextID && (o'.deliveries[k] == FRESH || o'.deliveries[k] == FRESH.(status := Cooldown)))
  }

  lemma FanOutKeeps(o: Tables, c: Config, f: Finding, kind: Transition, now: Time)
    requires Consistent(o)
    ensures Consistent(FannedOut(o, c, f, kind, now)) && Undisturbed(o, FannedOut(o, c, f, kind, now))
  {
    hide FirstStatus, Targets;
  }

  lemma TrimKeeps(o: Tables, o': Tables, keep: nat)
    requires Consistent(o) && Trimmed(o, o', keep)
    ensures Consistent(o') && Undisturbed(o, o')
    ensures keep <= HISTORY_LIMIT ==> Bounded(o')
  {
  }

  /** A trim drops the oldest events first, and of one second the last destinations. */
  lemma TrimDropsOldest(o: Tables, o': Tables, keep: nat, k: Key, l: Key)
    requires Consistent(o) && Trimmed(o, o', keep)
    requires k in o'.deliveries && l in o.deliveries && l !in o'.deliveries
    ensures |o'.deliveries| == keep < |o.deliveries|
    ensures || o.events[l.event].createdAt < o.events[k.event].createdAt
            || (o.events[l.event].createdAt == o.events[k.event].createdAt && StringLe(k.destination, l.destination))
  {
    hide StringLe, RowConsistent;
    if |o.deliveries| <= keep {
      assert |o'.deliveries.Keys| == |o'.deliveries| && |o.deliveries.Keys| == |o.deliveries|;
      SameSize(o'.deliveries.Keys, o.deliveries.Keys);
    }
  }

  lemma SameSize<T>(s: set<T>, t: set<T>)
    requires s <= t && |s| == |t|
    ensures s == t
  {
    assert |t - s| == |t| - |s|;
  }

  lemma UndisturbedTwice(a: Tables, b: Tables, c: Tables)
    requires Undisturbed(a, b) && Undisturbed(b, c)
    ensures Undisturbed(a, c)
  {
  }

  /** The history is within its limit, whether or not deleting a destination has left events
      without a row. */
  ghost predicate WithinLimit(o: Tables) {
    |o.deliveries| <= HISTORY_LIMIT
  }

  /** Queueing one transition is a transaction the dispatcher can live with. Unless it was silent
      its commit leaves at most two thousand rows and no event without one, whatever it found. */
  lemma QueuedKeeps(o: Tables, o': Tables, c: Config, f: Finding, kind: Transition, now: Time)
    requires Consistent(o) && Queued(o, o', c, f, kind, now)
    ensures Consistent(o') && Undisturbed(o, o')
    ensures Bounded(o) || !Silent(c, f, now) ==> Bounded(o')
    ensures WithinLimit(o) || !Silent(c, f, now) ==> WithinLimit(o')
  {
    assert Bounded(o') ==> WithinLimit(o');
    if !Silent(c, f, now) {
      hide FannedOut, Trimmed, Consistent, Undisturbed, Bounded;
      var fanned := FannedOut(o, c, f, kind, now);
      FanOutKeeps(o, c, f, kind, now);
      TrimKeeps(fanned, o', HISTORY_LIMIT);
      UndisturbedTwice(o, fanned, o');
    }
  }

  /** What keeps a transition from being queued: an active maintenance window or suppression, or a
      severity below High as long as there is no route. */
  lemma SilentMeaning(c: Config, f: Finding, now: Time)
    ensures Silent(c, f, now) <==>
              || (exists w :: w in c.windows && InWindow(w, f, TagsOf(c, f.serverID), now))
              || (exists s :: s in c.suppressions && Suppresses(s, f, TagsOf(c, f.serverID), now))
              || (|c.routes| == 0 && f.severity != "HIGH" && f.severity != "CRITICAL")
  {
    hide InWindow, Suppresses, TagsOf;
  }

  /** The event that is stored: the finding as reported, at the time of the transaction. */
  lemma EventMeaning(o: Tables, c: Config, f: Finding, kind: Transition, now: Time, id: EventID)
    requires Consistent(o)
    ensures var o' := FannedOut(o, c, f, kind, now);
            && o.nextID !in o.events && o'.nextID == o.nextID + 1
            && o.nextID in o'.events && o'.events[o.nextID] == Event(f.id, kind, f, now)
            && (id != o.nextID ==> (id in o'.events <==> id in o.events))
            && (id != o.nextID && id in o.events ==> o'.events[id] == o.events[id])
  {
    hide Targets, FirstStatus;
  }

  /** The fan-out of one event: before the trim it has exactly one row per enabled destination
      some matching enabled route leads to, and the row waits exactly when the least cooldown of
      those routes is positive and still running; rows of earlier events are as they were. */
  lemma FanOutMeaning(o: Tables, c: Config, f: Finding, kind: Transition, now: Time, d: string)
    requires Consistent(o)
    ensures var o' := FannedOut(o, c, f, kind, now);
            var tags := TagsOf(c, f.serverID);
            && (Key(o.nextID, d) in o'.deliveries <==>
                  && d in c.destinations && c.destinations[d]
                  && (c.routes == [] ||
                      exists r :: r in c.routes && Matches(r, f, tags, kind) && d in r.destinations))
            && (Key(o.nextID, d) in o'.deliveries ==>
                  || o'.deliveries[Key(o.nextID, d)] == Delivery(Pending, 0, None, None)
                  || o'.deliveries[Key(o.nextID, d)] == Delivery(Cooldown, 0, None, None))
            && (Key(o.nextID, d) in o'.deliveries ==>
                  (o'.deliveries[Key(o.nextID, d)].status == Cooldown <==>
                     exists cooldown: nat, k: Key ::
                       && IsLeast(c.routes, f, tags, kind, d, cooldown) && cooldown > 0
                       && k in o.deliveries && k.destination == d && k.event in o.events
                       && o.events[k.event].findingID == f.id && o.deliveries[k].status == Delivered
                       && o.deliveries[k].deliveredAt.Some? && o.deliveries[k].deliveredAt.value >= now - cooldown))
            && (forall k: Key :: k.event != o.nextID ==>
                  && (k in o'.deliveries <==> k in o.deliveries)
                  && (k in o.deliveries ==> o'.deliveries[k] == o.deliveries[k]))
  {
    var tags := TagsOf(c, f.serverID);
    CooldownMeaning(c.routes, f, tags, kind, d);
    hide Matches;
    forall cooldown: nat | IsLeast(c.routes, f, tags, kind, d, cooldown)
      ensures CooldownFor(c.routes, f, tags, kind, d) == Some(cooldown)
    {
    }
  }

  /** The transitions of one transaction, queued in turn. */
  ghost predicate QueuedAll(o: Tables, o': Tables, c: Config, changes: seq<Change>, now: Time)
    decreases |changes|
  {
    if changes == [] then o' == o
    else
      var last := changes[|changes| - 1];
      exists mid :: QueuedAll(o, mid, c, changes[..|changes| - 1], now) &&
        Queued(mid, o', c, last.finding, last.kind, now)
  }

  lemma QueuedAllSnoc(o: Tables, mid: Tables, o': Tables, c: Config, changes: seq<Change>, last: Change, now: Time)
    requires QueuedAll(o, mid, c, changes, now) && Queued(mid, o', c, last.finding, last.kind, now)
    ensures QueuedAll(o, o', c, changes + [last], now)
  {
    hide Queued;
    var all := changes + [last];
    assert all[..|all| - 1] == changes;
    assert QueuedAll(o, mid, c, all[..|all| - 1], now) &&
      Queued(mid, o', c, all[|all| - 1].finding, all[|all| - 1].kind, now);
  }

  lemma UndisturbedSelf(o: Tables)
    ensures Undisturbed(o, o)
  {
  }

  /** Some transition is neither muted nor below what is queued without routes. */
  predicate Loud(c: Config, changes: seq<Change>, now: Time) {
    exists change :: change in changes && !Silent(c, change.finding, now)
  }

  /** So is a whole finding transaction: one loud transition is enough for a bounded history
      without orphaned events, and the limit on the rows is kept in any case. */
  lemma {:induction false} QueuedAllKeeps(o: Tables, o': Tables, c: Config, changes: seq<Change>, now: Time)
    requires Consistent(o) && QueuedAll(o, o', c, changes, now)
    ensures Consistent(o') && Undisturbed(o, o')
    ensures Bounded(o) || Loud(c, changes, now) ==> Bounded(o')
    ensures WithinLimit(o) || Loud(c, changes, now) ==> WithinLimit(o')
    decreases |changes|
  {
    hide Consistent, Undisturbed, Bounded, WithinLimit, Queued, Silent;
    if changes == [] {
      UndisturbedSelf(o);
    } else {
      var front, last := changes[..|changes| - 1], changes[|changes| - 1];
      var mid :| QueuedAll(o, mid, c, front, now) && Queued(mid, o', c, last.finding, last.kind, now);
      hide QueuedAll;
      QueuedAllKeeps(o, mid, c, front, now);
      QueuedKeeps(mid, o', c, last.finding, last.kind, now);
      UndisturbedTwice(o, mid, o');
      assert Loud(c, changes, now) <==> Loud(c, front, now) || !Silent(c, last.finding, now) by {
        assert forall change :: change in changes <==> change in front || change == last;
      }
    }
  }

  /** Deleting a destination deletes its rows and nothing else. */
  function WithoutDestination(o: Tables, d: string): Tables {
    o.(deliveries := map k | k in o.deliveries && k.destination != d :: o.deliveries[k])
  }

  lemma WithinLimitMeaning(o: Tables)
    ensures WithinLimit(o) <==> |o.deliveries| <= HISTORY_LIMIT
  {
  }

  lemma DeletionIsWithinLimit(o: Tables, d: string)
    requires WithinLimit(o)
    ensures WithinLimit(WithoutDestination(o, d))
  {
    var keys, left := o.deliveries.Keys, WithoutDestination(o, d).deliveries.Keys;
    assert |keys| == |o.deliveries| && |left| == |WithoutDestination(o, d).deliveries|;
    assert keys == left + (keys - left);
  }

  /** That is a transaction like any other, except that it leaves an event without a row exactly
      when all rows of the event were for the destination. */
  lemma DeletionKeeps(o: Tables, d: string)
    requires Consistent(o) && WithinLimit(o)
    ensures var o' := WithoutDestination(o, d);
            && Consistent(o') && Undisturbed(o, o') && WithinLimit(o')
            && (Bounded(o') <==>
                  forall id :: id in o.events ==>
                    exists k: Key :: k in o.deliveries && k.event == id && k.destination != d)
  {
    DeletionIsWithinLimit(o, d);
    hide RowConsistent, WithinLimit;
    var o' := WithoutDestination(o, d);
    assert WithinLimit(o') <==> |o'.deliveries| <= HISTORY_LIMIT by { WithinLimitMeaning(o'); }
    forall id | id in o.events
      ensures (exists k: Key :: k in o'.deliveries && k.event == id) <==>
              exists k: Key :: k in o.deliveries && k.event == id && k.destination != d
    {
      if k: Key :| k in o.deliveries && k.event == id && k.destination != d { assert k in o'.deliveries; }
    }
  }

  /** One event with one row: deleting the row's destination leaves the event behind. */
  lemma DeletionCanOrphan(event: Event, d: string)
    ensures var o := Tables(map[0 := event], map[Key(0, d) := FRESH], 1);
            Consistent(o) && Bounded(o) && !Bounded(WithoutDestination(o, d)) &&
              WithoutDestination(o, d).events == o.events
  {
    var o := Tables(map[0 := event], map[Key(0, d) := FRESH], 1);
    assert Key(0, d) in o.deliveries;
    assert 0 in WithoutDestination(o, d).events;
  }
}
