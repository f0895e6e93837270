/** The store's finding and notification methods, and the dispatcher's loop over them. */
module FindingStore {
  import opened Models
  import opened Order
  import opened FindingLifecycle
  import opened Routing
  import opened Outbox

  lemma ComesFirstIsTotalPreorder(o: Tables)
    ensures TotalPreorder((k: Key, l: Key) => ComesFirst(o, k, l))
  {
    StringOrder();
  }

  method KeysOf(keys: set<Key>) returns (s: seq<Key>)
    ensures multiset(s) == multiset(keys)
  {
    s := [];
    var left := keys;
    while left != {}
      invariant left <= keys && multiset(s) == multiset(keys - left)
      decreases left
    {
      var k :| k in left;
      assert keys - (left - {k}) == (keys - left) + {k};
      left := left - {k};
      s := s + [k];
    }
    assert keys - left == keys;
  }

  /** The keys in the order of `le`, each once. */
  method InOrderOf(keys: set<Key>, le: (Key, Key) -> bool) returns (s: seq<Key>)
    requires TotalPreorder(le)
    ensures Sorted(s, le) && Elements(s) == keys && |s| == |keys|
    ensures forall i, j :: 0 <= i < j < |s| ==> s[i] != s[j]
  {
    var unsorted := KeysOf(keys);
    s := Sort(unsorted, le);
    SortSorts(unsorted, le);
    FromMultiset(s, keys);
    assert |s| == |multiset(s)| == |multiset(keys)| == |keys|;
  }

  /** What a limit keeps of an ordered list comes before what it drops. */
  lemma FirstOf(keys: set<Key>, order: seq<Key>, first: seq<Key>, le: (Key, Key) -> bool)
    requires Sorted(order, le) && Elements(order) == keys && first <= order
    ensures forall k :: k in first ==> k in keys
    ensures forall k, l :: k in first && l in keys && l !in first ==> le(k, l)
    ensures |first| == |order| ==> forall k :: k in keys ==> k in first
  {
    forall k | k in first ensures k in keys { assert k in Elements(order); }
    forall k, l | k in first && l in keys && l !in first ensures le(k, l) {
      var i :| 0 <= i < |first| && first[i] == k;
      assert l in Elements(order);
      var j :| 0 <= j < |order| && order[j] == l;
      assert forall x :: 0 <= x < |first| ==> order[x] == first[x];
    }
    if |first| == |order| {
      assert first == order;
      forall k | k in keys ensures k in first { assert k in Elements(order); }
    }
  }

  /** DELETE ... NOT IN (... ORDER BY created_at DESC, destination_id LIMIT keep), then the
      events left without a row. */
  method TrimHistory(o: Tables, keep: nat) returns (o': Tables)
    ensures Trimmed(o, o', keep)
  {
    var le := (k: Key, l: Key) => ComesFirst(o, k, l);
    ComesFirstIsTotalPreorder(o);
    var order := InOrderOf(o.deliveries.Keys, le);
    var first := if |order| <= keep then order else order[..keep];
    var kept := map k | k in o.deliveries && k in first :: o.deliveries[k];
    FirstKept(o, order, first, kept);
    o' := Tables(map id | id in o.events && (exists k :: k in kept && k.event == id) :: o.events[id], kept, o.nextID);
  }

  lemma FirstKept(o: Tables, order: seq<Key>, first: seq<Key>, kept: map<Key, Delivery>)
    requires Sorted(order, (k: Key, l: Key) => ComesFirst(o, k, l)) && Elements(order) == o.deliveries.Keys
    requires forall i, j :: 0 <= i < j < |order| ==> order[i] != order[j]
    requires first <= order && kept == map k | k in o.deliveries && k in first :: o.deliveries[k]
    ensures |kept| == |first|
    ensures forall k, l :: k in kept && l in o.deliveries && l !in kept ==> ComesFirst(o, k, l)
  {
    assert kept.Keys == Elements(first) by {
      forall k | k in first ensures k in o.deliveries { assert k in Elements(order); }
    }
    NoDuplicates(first);
    assert |Elements(first)| == |multiset(Elements(first))| == |multiset(first)| == |first|;
    FirstOf(o.deliveries.Keys, order, first, (k: Key, l: Key) => ComesFirst(o, k, l));
  }

  /** `queueFindingNotification` inside the transaction that holds `o`. */
  method QueueFindingNotification(o: Tables, c: Config, f: Finding, kind: Transition, now: Time) returns (o': Tables)
    ensures Queued(o, o', c, f, kind, now)
  {
    hide Trimmed, Muted;
    var maintenance, suppressed := MatchControls(c, f, now);
    if maintenance || suppressed {
      return o;
    }
    if |c.routes| == 0 && SeverityRank(f.severity) < SeverityRank("HIGH") {
      return o;
    }
    var fanned;
    if |c.routes| == 0 {
      fanned := FannedOut(o, c, f, kind, now);
    } else {
      fanned := FanOut(o, c, f, kind, now);
    }
    o' := TrimHistory(fanned, HISTORY_LIMIT);
  }

  /** The fan-out over explicit routes: cooldowns first, then one row per destination. */
  method FanOut(o: Tables, c: Config, f: Finding, kind: Transition, now: Time) returns (o': Tables)
    requires c.routes != []
    ensures o' == FannedOut(o, c, f, kind, now)
  {
    hide RecentlyDelivered, CooldownFor;
    var id := o.nextID;
    var cooldowns := Cooldowns(c, f, kind);
    var rows: map<Key, Delivery> := map[];
    var left := cooldowns.Keys;
    while left != {}
      invariant left <= cooldowns.Keys
      invariant rows.Keys == set d | d in cooldowns && d !in left :: Key(id, d)
      invariant forall k :: k in rows ==> rows[k] == FRESH.(status := FirstStatus(o, c, f, kind, now, k.destination))
      decreases left
    {
      var d :| d in left;
      left := left - {d};
      var status := Pending;
      if cooldowns[d] > 0 && RecentlyDelivered(o, d, f.id, now - cooldowns[d]) {
        status := Cooldown;
      }
      assert d in cooldowns;
      assert status == FirstStatus(o, c, f, kind, now, d);
      rows := rows[Key(id, d) := FRESH.(status := status)];
    }
    TargetsAre(c, f, kind, cooldowns);
    o' := Tables(o.events[id := Event(f.id, kind, f, now)], o.deliveries + rows, id + 1);
    assert rows == map k | k in (set d | d in Targets(c, f, kind) :: Key(o.nextID, d)) ::
        FRESH.(status := FirstStatus(o, c, f, kind, now, k.destination));
  }

  lemma TargetsAre(c: Config, f: Finding, kind: Transition, cooldowns: map<string, nat>)
    requires c.routes != [] && AreCooldowns(cooldowns, c, c.routes, f, kind)
    ensures cooldowns.Keys == Targets(c, f, kind)
  {
    forall d ensures d in cooldowns <==> d in Targets(c, f, kind) { }
  }

  // ---- upserting ----

  /** An insert fails on a duplicate id under another fingerprint. Reporting a transition fails for
      an unknown server, and, unless it is silent, for an event that refers to no stored finding:
      one whose fingerprint is stored under another id. */
  predicate Insertable(t: Table, servers: set<string>, c: Config, f: Finding, now: Time) {
    && (f.fingerprint in t || forall fp :: fp in t ==> t[fp].id != f.id)
    && (TransitionOf(t, f).Some? ==>
          && f.serverID in servers
          && (Silent(c, f, now) || f.fingerprint !in t || exists fp :: fp in t && t[fp].id == f.id))
  }

  predicate Acceptable(t: Table, servers: set<string>, c: Config, fs: seq<Finding>, now: Time) {
    fs == [] ||
    (Acceptable(t, servers, c, fs[..|fs| - 1], now) &&
      Insertable(Upserted(t, fs[..|fs| - 1]), servers, c, fs[|fs| - 1], now))
  }

  /** What the analyzer produces: a finding's id is its fingerprint. */
  ghost predicate Produced(t: Table) {
    forall fp :: fp in t ==> t[fp].id == fp
  }

  lemma {:induction false} ProducedUpserts(t: Table, fs: seq<Finding>)
    requires Produced(t) && forall f :: f in fs ==> f.id == f.fingerprint
    ensures Produced(Upserted(t, fs))
  {
    if fs != [] { ProducedUpserts(t, fs[..|fs| - 1]); }
  }

  lemma {:induction false} ProducedIsAcceptable(t: Table, servers: set<string>, c: Config, fs: seq<Finding>, now: Time)
    requires Produced(t) && forall f :: f in fs ==> f.id == f.fingerprint && f.serverID in servers
    ensures Acceptable(t, servers, c, fs, now)
  {
    hide Silent, Upserted;
    if fs != [] {
      ProducedIsAcceptable(t, servers, c, fs[..|fs| - 1], now);
      ProducedUpserts(t, fs[..|fs| - 1]);
    }
  }

  /** No call of the collector fails: what the analyzer produces for known servers is accepted, and
      leaves a table that what it produces next is accepted for. */
  lemma CollectorIsAccepted(t: Table, servers: set<string>, c: Config, serverID: string, fs: seq<Finding>, now: Time)
    requires Produced(t) && forall f :: f in fs ==> f.id == f.fingerprint && f.serverID in servers
    ensures Acceptable(t, servers, c, fs, now) && Produced(Reconciled(t, serverID, fs, now))
  {
    ProducedIsAcceptable(t, servers, c, fs, now);
    ProducedUpserts(t, fs);
    hide Upserted, Fingerprints;
  }

  lemma {:induction false} AcceptedUpsertsKeepIDs(t: Table, servers: set<string>, c: Config, fs: seq<Finding>,
                                                  now: Time)
    requires DistinctIDs(t) && Acceptable(t, servers, c, fs, now)
    ensures DistinctIDs(Upserted(t, fs))
  {
    hide Silent, TransitionOf;
    if fs != [] {
      AcceptedUpsertsKeepIDs(t, servers, c, fs[..|fs| - 1], now);
    }
  }

  /** An accepted call leaves every id to one finding, and so does a status change. */
  lemma AcceptedKeepsIDs(t: Table, servers: set<string>, c: Config, serverID: string, fs: seq<Finding>, now: Time,
                         id: string, status: Status)
    requires DistinctIDs(t)
    ensures Acceptable(t, servers, c, fs, now) ==> DistinctIDs(Reconciled(t, serverID, fs, now))
    ensures DistinctIDs(WithStatus(t, id, status, now))
  {
    hide Acceptable, Upserted, Fingerprints;
    if Acceptable(t, servers, c, fs, now) { AcceptedUpsertsKeepIDs(t, servers, c, fs, now); }
  }

  /** Which upserts succeed, by the constraints of the tables they leave: the id is unique, a reported
      finding is of a known server, and the finding its event refers to is stored. */
  lemma InsertableMeaning(t: Table, servers: set<string>, c: Config, f: Finding, now: Time)
    requires DistinctIDs(t)
    ensures var t' := t[f.fingerprint := Row(t, f)];
            var reported :=
              || f.fingerprint !in t || t[f.fingerprint].status == Resolved
              || SeverityRank(t[f.fingerprint].severity) < SeverityRank(f.severity);
            Insertable(t, servers, c, f, now) <==>
              && DistinctIDs(t')
              && (reported ==> f.serverID in servers)
              && (reported && !Silent(c, f, now) ==> exists fp :: fp in t' && t'[fp].id == f.id)
  {
    hide Silent, SeverityRank;
    var t' := t[f.fingerprint := Row(t, f)];
    if fp :| fp in t && t[fp].id == f.id { assert t'[fp].id == f.id; }
    if f.fingerprint !in t { assert t'[f.fingerprint].id == f.id; }
  }

  /** A reported finding whose fingerprint is stored under another id fails the whole call. */
  lemma OtherIDFails(servers: set<string>, c: Config, stored: Finding, f: Finding, now: Time)
    requires f.fingerprint == stored.fingerprint && f.id != stored.id
    requires stored.status == Resolved && !Silent(c, f, now)
    ensures !Acceptable(map[stored.fingerprint := stored], servers, c, [f], now)
  {
    hide Silent;
    assert [f][..0] == [];
    assert TransitionOf(map[stored.fingerprint := stored], f) == Some(Reopened);
  }

  lemma NothingUpserted(t: Table, o: Tables, c: Config, servers: set<string>, fs: seq<Finding>, now: Time)
    ensures Acceptable(t, servers, c, fs[..0], now) && Upserted(t, fs[..0]) == t && Fingerprints(fs[..0]) == {}
    ensures UpsertChanges(t, fs[..0]) == [] && QueuedAll(o, o, c, [], now)
  {
  }

  lemma OneMoreUpserted(t: Table, servers: set<string>, c: Config, fs: seq<Finding>, i: nat, now: Time)
    requires i < |fs|
    ensures var before := Upserted(t, fs[..i]);
            && Upserted(t, fs[..i + 1]) == before[fs[i].fingerprint := Row(before, fs[i])]
            && UpsertChanges(t, fs[..i + 1]) == UpsertChanges(t, fs[..i]) + ChangesOf(before, fs[i])
            && Fingerprints(fs[..i + 1]) == Fingerprints(fs[..i]) + {fs[i].fingerprint}
            && (Acceptable(t, servers, c, fs[..i + 1], now) <==>
                  Acceptable(t, servers, c, fs[..i], now) && Insertable(before, servers, c, fs[i], now))
  {
    hide Row, ChangesOf, Insertable;
    assert fs[..i + 1][..i] == fs[..i];
  }

  lemma {:induction false} NotAcceptable(t: Table, servers: set<string>, c: Config, fs: seq<Finding>, i: nat, now: Time)
    requires i < |fs| && !Insertable(Upserted(t, fs[..i]), servers, c, fs[i], now)
    ensures !Acceptable(t, servers, c, fs, now)
  {
    hide Insertable;
    if i < |fs| - 1 {
      var front := fs[..|fs| - 1];
      assert front[..i] == fs[..i];
      NotAcceptable(t, servers, c, front, i, now);
    }
  }

  method QueueTransition(t: Table, o: Tables, c: Config, f: Finding, now: Time) returns (o': Tables)
    ensures match TransitionOf(t, f)
            case None => o' == o
            case Some(kind) => Queued(o, o', c, f, kind, now)
  {
    var kind := TransitionOf(t, f);
    o' := o;
    if kind.Some? {
      o' := QueueFindingNotification(o, c, f, kind.value, now);
    }
  }

  lemma QueuedChanges(o: Tables, mid: Tables, o': Tables, c: Config, changes: seq<Change>, t: Table, f: Finding,
                      now: Time)
    requires QueuedAll(o, mid, c, changes, now)
    requires match TransitionOf(t, f)
             case None => o' == mid
             case Some(kind) => Queued(mid, o', c, f, kind, now)
    ensures QueuedAll(o, o', c, changes + ChangesOf(t, f), now)
  {
    if TransitionOf(t, f).None? {
      assert changes + [] == changes;
    } else {
      QueuedAllSnoc(o, mid, o', c, changes, ChangesOf(t, f)[0], now);
    }
  }

  /** The first loop of `UpsertFindings`; a failed insert abandons the transaction. */
  method UpsertEach(findings: Table, outbox: Tables, c: Config, servers: set<string>, fs: seq<Finding>, now: Time)
    returns (ok: bool, t: Table, o: Tables, seen: set<string>, ghost changes: seq<Change>)
    ensures ok <==> Acceptable(findings, servers, c, fs, now)
    ensures ok ==> t == Upserted(findings, fs) && seen == Fingerprints(fs) && changes == UpsertChanges(findings, fs)
    ensures ok ==> QueuedAll(outbox, o, c, changes, now)
  {
    hide *;
    NothingUpserted(findings, outbox, c, servers, fs, now);
    t, o, seen, changes := findings, outbox, {}, [];
    for i := 0 to |fs|
      invariant Acceptable(findings, servers, c, fs[..i], now)
      invariant t == Upserted(findings, fs[..i]) && seen == Fingerprints(fs[..i])
      invariant changes == UpsertChanges(findings, fs[..i]) && QueuedAll(outbox, o, c, changes, now)
    {
      var f := fs[i];
      OneMoreUpserted(findings, servers, c, fs, i, now);
      if !Insertable(t, servers, c, f, now) {
        NotAcceptable(findings, servers, c, fs, i, now);
        return false, t, o, seen, changes;
      }
      ghost var before := o;
      o := QueueTransition(t, o, c, f, now);
      QueuedChanges(outbox, before, o, c, changes, t, f, now);
      changes := changes + ChangesOf(t, f);
      seen := seen + {f.fingerprint};
      t := t[f.fingerprint := Row(t, f)];
    }
    assert fs[..|fs|] == fs;
    ok := true;
  }

  lemma StaleIsStored(t: Table, serverID: string, seen: set<string>)
    ensures Stale(t, serverID, seen) <= t.Keys
  {
  }

  lemma ReportsAre(t: Table, serverID: string, fs: seq<Finding>, now: Time, order: seq<string>, changes: seq<Change>)
    requires Elements(order) == Stale(Upserted(t, fs), serverID, Fingerprints(fs))
    requires forall i, j :: 0 <= i < j < |order| ==> order[i] != order[j]
    requires forall fp :: fp in order ==> fp in Upserted(t, fs)
    requires changes == UpsertChanges(t, fs) + ResolvedChanges(Upserted(t, fs), order, now)
    ensures Reports(t, serverID, fs, now, changes)
    ensures Reconciled(t, serverID, fs, now) ==
              ResolvedAll(Upserted(t, fs), Stale(Upserted(t, fs), serverID, Fingerprints(fs)), now)
  {
  }

  /** Reports each stale finding as resolved, in the order the query happened to return them. */
  method ResolveStale(ghost start: Tables, t: Table, before: Tables, c: Config, stale: set<string>,
                      ghost had: seq<Change>, now: Time)
    returns (o: Tables, ghost order: seq<string>, ghost changes: seq<Change>)
    requires stale <= t.Keys && QueuedAll(start, before, c, had, now)
    ensures Elements(order) == stale && (forall i, j :: 0 <= i < j < |order| ==> order[i] != order[j])
    ensures forall fp :: fp in order ==> fp in t
    ensures changes == had + ResolvedChanges(t, order, now) && QueuedAll(start, o, c, changes, now)
  {
    hide QueuedAll, Queued;
    o, order := before, [];
    changes := had;
    assert had + ResolvedChanges(t, [], now) == had;
    var left := stale;
    while left != {}
      invariant left <= stale && Elements(order) == stale - left
      invariant forall i, j :: 0 <= i < j < |order| ==> order[i] != order[j]
      invariant forall fp :: fp in order ==> fp in t
      invariant changes == had + ResolvedChanges(t, order, now) && QueuedAll(start, o, c, changes, now)
      decreases left
    {
      var fp :| fp in left;
      var finding := t[fp].(status := Resolved, updatedAt := now, resolvedAt := None);
      ghost var mid := o;
      o := QueueFindingNotification(o, c, finding, Closed, now);
      QueuedAllSnoc(start, mid, o, c, changes, ResolvedChange(t, fp, now), now);
      assert fp !in order by { assert fp !in Elements(order); }
      assert had + ResolvedChanges(t, order + [fp], now) ==
        had + ResolvedChanges(t, order, now) + [ResolvedChange(t, fp, now)];
      assert Elements(order + [fp]) == Elements(order) + {fp};
      left, order, changes := left - {fp}, order + [fp], changes + [ResolvedChange(t, fp, now)];
    }
  }

  // ---- the store ----

  /** ORDER BY created_at, destination_id. */
  predicate OldestFirst(o: Tables, k: Key, l: Key) {
    var a, b := CreatedAt(o, k), CreatedAt(o, l);
    a < b || (a == b && StringLe(k.destination, l.destination))
  }

  /** SELECT ... JOIN ... WHERE: the rows that may be sent now. */
  function DueRows(o: Tables, now: Time): set<Key> {
    set k | k in o.deliveries && k.event in o.events && Due(o.deliveries[k], now)
  }

  /** What a load returns: rows of stored events that wait to be sent, are not used up and whose time
      has come, distinct, oldest event first; all of them, unless there are more than the limit, and
      then the oldest. */
  ghost predicate Loads(o: Tables, items: seq<Key>, limit: nat, now: Time) {
    && |items| <= limit
    && (forall i, j :: 0 <= i < j < |items| ==> items[i] != items[j])
    && (forall k :: k in items ==>
          && k in o.deliveries && k.event in o.events
          && (o.deliveries[k].status == Pending || o.deliveries[k].status == Retry) && o.deliveries[k].attempts < 3
          && (o.deliveries[k].nextAttemptAt == None || o.deliveries[k].nextAttemptAt.value <= now))
    && (forall i, j :: 0 <= i < j < |items| ==> NotAfter(o, items[i], items[j]))
    && forall k: Key ::
         && k in o.deliveries && k.event in o.events
         && (o.deliveries[k].status == Pending || o.deliveries[k].status == Retry) && o.deliveries[k].attempts < 3
         && (o.deliveries[k].nextAttemptAt == None || o.deliveries[k].nextAttemptAt.value <= now)
         && k !in items
         ==> |items| == limit && forall l :: l in items ==> NotAfter(o, l, k)
  }

  /** The event of `k` is older than that of `l`, or of the same second with a destination not after. */
  ghost predicate NotAfter(o: Tables, k: Key, l: Key) {
    k.event in o.events && l.event in o.events ==>
      || o.events[k.event].createdAt < o.events[l.event].createdAt
      || (o.events[k.event].createdAt == o.events[l.event].createdAt && StringLe(k.destination, l.destination))
  }

  lemma FirstDueAreLoaded(o: Tables, order: seq<Key>, items: seq<Key>, limit: nat, now: Time)
    requires Sorted(order, (k: Key, l: Key) => OldestFirst(o, k, l)) && Elements(order) == DueRows(o, now)
    requires forall i, j :: 0 <= i < j < |order| ==> order[i] != order[j]
    requires items == if |order| <= limit then order else order[..limit]
    ensures Loads(o, items, limit, now)
  {
    FirstOf(DueRows(o, now), order, items, (k: Key, l: Key) => OldestFirst(o, k, l));
    hide StringLe;
    forall i, j | 0 <= i < j < |items| ensures items[i] != items[j] && NotAfter(o, items[i], items[j]) {
      assert items[i] == order[i] && items[j] == order[j];
      assert OldestFirst(o, order[i], order[j]);
    }
    forall k | k in items ensures k in DueRows(o, now) { assert k in Elements(order); }
    forall k | k in DueRows(o, now) && k !in items
      ensures |items| == limit && forall l :: l in items ==> NotAfter(o, l, k)
    {
      forall l | l in items ensures NotAfter(o, l, k) { assert OldestFirst(o, l, k); }
    }
  }

  lemma OldestFirstIsTotalPreorder(o: Tables)
    ensures TotalPreorder((k: Key, l: Key) => OldestFirst(o, k, l))
  {
    StringOrder();
  }

  /** The row before and after one more attempt at `now`: delivered, given up after the third, or to
      be retried one minute later, and four minutes after the second. */
  ghost predicate AttemptedAt(r: Delivery, r': Delivery, ok: bool, now: Time) {
    if ok then r' == Delivery(Delivered, r.attempts + 1, Some(now), None)
    else if r.attempts >= 2 then r' == Delivery(Failed, r.attempts + 1, r.deliveredAt, None)
    else r' == Delivery(Retry, r.attempts + 1, r.deliveredAt, Some(now + if r.attempts == 0 then 60 else 240))
  }

  class Store {
    var findings: Table
    var outbox: Tables
    var config: Config
    var servers: set<string>

    /** One transaction: upsert what was found, resolve what was not, queue every transition. */
    method UpsertFindings(serverID: string, fs: seq<Finding>, now: Time) returns (ok: bool)
      modifies `findings, `outbox
      ensures ok <==> Acceptable(old(findings), servers, config, fs, now)
      ensures !ok ==> findings == old(findings) && outbox == old(outbox)
      ensures ok ==> findings == Reconciled(old(findings), serverID, fs, now)
      ensures ok ==>
                exists changes ::
                  && Reports(old(findings), serverID, fs, now, changes)
                  && QueuedAll(old(outbox), outbox, config, changes, now)
    {
      hide *;
      var inserted, t, o, seen;
      ghost var changes, order;
      inserted, t, o, seen, changes := UpsertEach(findings, outbox, config, servers, fs, now);
      if !inserted {
        return false;
      }
      var stale := Stale(t, serverID, seen);
      StaleIsStored(t, serverID, seen);
      o, order, changes := ResolveStale(outbox, t, o, config, stale, changes, now);
      ReportsAre(findings, serverID, fs, now, order, changes);
      findings, outbox := ResolvedAll(t, stale, now), o;
      ok := true;
    }

    /** The open finding with that id gets the status and the time, and nothing else changes; the
        caller learns whether there was one. */
    method SetFindingStatus(id: string, status: Status, now: Time) returns (found: bool)
      requires status == Active || status == Acknowledged
      modifies `findings
      ensures findings.Keys == old(findings).Keys
      ensures forall fp :: fp in findings && old(findings)[fp].id == id && Open(old(findings), fp) ==>
                findings[fp].status == status && findings[fp].updatedAt == now
      ensures forall fp :: fp in findings ==>
                findings[fp].(status := old(findings)[fp].status, updatedAt := old(findings)[fp].updatedAt) ==
                  old(findings)[fp]
      ensures forall fp :: fp in findings && (old(findings)[fp].id != id || !Open(old(findings), fp)) ==>
                findings[fp] == old(findings)[fp]
      ensures found <==> exists fp :: fp in findings && findings[fp].id == id && Open(findings, fp)
      ensures forall log :: SetStatus(State(old(findings), log), State(findings, log), id, status, now)
    {
      var updated := set fp | fp in findings && findings[fp].id == id && findings[fp].status != Resolved;
      findings := WithStatus(findings, id, status, now);
      assert forall fp :: fp in updated <==> fp in findings && findings[fp].id == id && Open(findings, fp);
      found := |updated| != 0;
    }

    /** The due rows, oldest event first, and of too many the oldest ones. */
    method PendingFindingNotifications(limit: nat, now: Time) returns (items: seq<Key>)
      ensures Loads(outbox, items, limit, now)
    {
      hide DueRows;
      var due, o := DueRows(outbox, now), outbox;
      var le := (k: Key, l: Key) => OldestFirst(o, k, l);
      OldestFirstIsTotalPreorder(o);
      var order := InOrderOf(due, le);
      items := if |order| <= limit then order else order[..limit];
      FirstDueAreLoaded(o, order, items, limit, now);
    }

    /** A failure recorded for a row that is gone is an error and trims nothing. */
    method RecordFindingNotification(k: Key, ok: bool, now: Time)
      modifies `outbox
      ensures if !ok && k !in old(outbox).deliveries then outbox == old(outbox)
              else Trimmed(Recorded(old(outbox), k, ok, now), outbox, HISTORY_LIMIT)
      ensures forall l :: l in outbox.deliveries ==>
                && l in old(outbox).deliveries
                && if l == k then AttemptedAt(old(outbox).deliveries[l], outbox.deliveries[l], ok, now)
                   else outbox.deliveries[l] == old(outbox).deliveries[l]
    {
      if !ok && k !in outbox.deliveries {
        return;
      }
      var o := Recorded(outbox, k, ok, now);
      outbox := TrimHistory(o, HISTORY_LIMIT);
    }
  }

  // ---- the dispatcher ----

  /** The tables without the events that no row belongs to. */
  function WithoutOrphans(o: Tables): Tables {
    o.(events := map id | id in o.events && (exists k: Key :: k in o.deliveries && k.event == id) :: o.events[id])
  }

  lemma TrimOrphansOnly(o: Tables, o': Tables)
    requires WithinLimit(o) && Trimmed(o, o', HISTORY_LIMIT)
    ensures o' == WithoutOrphans(o)
  {
    assert |o'.deliveries.Keys| == |o'.deliveries| && |o.deliveries.Keys| == |o.deliveries|;
    SameSize(o'.deliveries.Keys, o.deliveries.Keys);
    assert o'.deliveries == o.deliveries;
  }

  /** The tables once the rows of `done` have been attempted: these have one more attempt, all
      others are as they were, and the first record drops the events a deleted destination left
      behind. */
  function Dispatched(o: Tables, done: seq<Key>, outcome: Key -> bool, now: Time): Tables {
    if done == [] then o
    else WithoutOrphans(o).(deliveries := map k | k in o.deliveries ::
           if k in done then AfterAttempt(o.deliveries[k], outcome(k), now) else o.deliveries[k])
  }

  lemma DispatchedIsWithinLimit(o: Tables, done: seq<Key>, outcome: Key -> bool, now: Time)
    requires WithinLimit(o)
    ensures WithinLimit(Dispatched(o, done, outcome, now))
    ensures Dispatched(o, done, outcome, now).deliveries.Keys == o.deliveries.Keys
    ensures done != [] ==> Bounded(Dispatched(o, done, outcome, now))
  {
    var o' := Dispatched(o, done, outcome, now);
    assert |o'.deliveries.Keys| == |o'.deliveries| && |o.deliveries.Keys| == |o.deliveries|;
    assert o'.deliveries.Keys == o.deliveries.Keys;
    if done != [] {
      forall id | id in o'.events ensures exists k: Key :: k in o'.deliveries && k.event == id {
        var k: Key :| k in o.deliveries && k.event == id;
        assert k in o'.deliveries;
      }
    }
  }

  lemma DispatchedOneMore(o: Tables, done: seq<Key>, k: Key, outcome: Key -> bool, now: Time)
    requires k in o.deliveries && k !in done
    ensures WithoutOrphans(Recorded(Dispatched(o, done, outcome, now), k, outcome(k), now)) ==
            Dispatched(o, done + [k], outcome, now)
  {
    var mid := Dispatched(o, done, outcome, now);
    var o' := WithoutOrphans(Recorded(mid, k, outcome(k), now));
    assert Recorded(mid, k, outcome(k), now).deliveries.Keys == o.deliveries.Keys;
    assert o'.events == WithoutOrphans(o).events;
    assert o'.deliveries == Dispatched(o, done + [k], outcome, now).deliveries;
  }

  lemma NothingDispatched(o: Tables, done: seq<Key>, outcome: Key -> bool, now: Time)
    requires done == []
    ensures Dispatched(o, done, outcome, now) == o
  {
  }

  lemma RecordedIsWithinLimit(o: Tables, k: Key, ok: bool, now: Time)
    requires WithinLimit(o) && k in o.deliveries
    ensures WithinLimit(Recorded(o, k, ok, now))
  {
    var o' := Recorded(o, k, ok, now);
    assert |o'.deliveries.Keys| == |o'.deliveries| && |o.deliveries.Keys| == |o.deliveries|;
    assert o'.deliveries.Keys == o.deliveries.Keys;
  }

  /** One undisturbed pass of the dispatcher over at most fifty loaded rows: every loaded row has been
      attempted once, every other row is as it was, no row comes or goes, and once something was
      recorded no event is left without a row. */
  ghost predicate Pass(o: Tables, o': Tables, items: seq<Key>, outcome: Key -> bool, now: Time) {
    && Loads(o, items, 50, now) && o'.deliveries.Keys == o.deliveries.Keys
    && (forall k :: k in o.deliveries ==>
          if k in items then AttemptedAt(o.deliveries[k], o'.deliveries[k], outcome(k), now)
          else o'.deliveries[k] == o.deliveries[k])
    && (forall id :: id in o'.events ==> id in o.events && o'.events[id] == o.events[id])
    && forall id :: id in o.events ==>
         (id in o'.events <==> items == [] || exists k: Key :: k in o.deliveries && k.event == id)
  }

  lemma DispatchedIsPass(o: Tables, items: seq<Key>, outcome: Key -> bool, now: Time)
    requires Loads(o, items, 50, now)
    ensures Pass(o, Dispatched(o, items, outcome, now), items, outcome, now)
  {
    hide NotAfter;
  }

  lemma LoadedItem(o: Tables, items: seq<Key>, limit: nat, now: Time, i: nat)
    requires Loads(o, items, limit, now) && i < |items|
    ensures items[i] in o.deliveries && items[i] !in items[..i] && items[..i + 1] == items[..i] + [items[i]]
  {
    hide NotAfter;
    assert items[i] in items;
  }

  /** A pending or retried row is loaded exactly when its time has come, as long as the load is not full. */
  lemma LoadedWhenDue(o: Tables, items: seq<Key>, k: Key, limit: nat, now: Time)
    requires Loads(o, items, limit, now) && |items| < limit && k in o.deliveries && k.event in o.events
    requires o.deliveries[k].status == Pending || o.deliveries[k].status == Retry
    requires o.deliveries[k].attempts < 3
    ensures k in items <==> o.deliveries[k].nextAttemptAt == None || o.deliveries[k].nextAttemptAt.value <= now
  {
    hide NotAfter;
  }

  /** One pass whose load is not full, and a row that waits to be sent but cannot be: it is attempted
      exactly when its time has come, and is otherwise as it was. */
  lemma RowAfterPass(o: Tables, o': Tables, items: seq<Key>, k: Key, outcome: Key -> bool, now: Time)
    requires Pass(o, o', items, outcome, now) && |items| < 50 && !outcome(k) && k in o.deliveries && k.event in o.events
    requires o.deliveries[k].status == Pending || o.deliveries[k].status == Retry
    requires o.deliveries[k].attempts < 3
    ensures k in items <==> o.deliveries[k].nextAttemptAt == None || o.deliveries[k].nextAttemptAt.value <= now
    ensures k in o'.deliveries && k.event in o'.events
    ensures if k in items then AttemptedAt(o.deliveries[k], o'.deliveries[k], false, now)
            else o'.deliveries[k] == o.deliveries[k]
  {
    LoadedWhenDue(o, items, k, 50, now);
    hide Loads, AttemptedAt;
  }

  /** A fresh row whose sends keep failing is attempted at once, again exactly from one minute after
      the first attempt on, and a third time exactly from four minutes after the second on; then it
      has failed. */
  lemma FailingRow(o0: Tables, o1: Tables, o2: Tables, o3: Tables, i0: seq<Key>, i1: seq<Key>, i2: seq<Key>,
                   k: Key, outcome: Key -> bool, t0: Time, t1: Time, t2: Time)
    requires k in o0.deliveries && k.event in o0.events && o0.deliveries[k] == Delivery(Pending, 0, None, None)
    requires Pass(o0, o1, i0, outcome, t0) && Pass(o1, o2, i1, outcome, t1) && Pass(o2, o3, i2, outcome, t2)
    requires !outcome(k) && |i0| < 50 && |i1| < 50 && |i2| < 50
    ensures k in i0 && (k in i1 <==> t1 >= t0 + 60) && k in o1.deliveries && k in o2.deliveries && k in o3.deliveries
    ensures t1 < t0 + 60 ==> o2.deliveries[k] == Delivery(Retry, 1, None, Some(t0 + 60))
    ensures t1 >= t0 + 60 ==> (k in i2 <==> t2 >= t1 + 240)
    ensures t1 >= t0 + 60 && t2 < t1 + 240 ==> o3.deliveries[k] == Delivery(Retry, 2, None, Some(t1 + 240))
    ensures t1 >= t0 + 60 && t2 >= t1 + 240 ==> o3.deliveries[k] == Delivery(Failed, 3, None, None)
  {
    hide Pass;
    RowAfterPass(o0, o1, i0, k, outcome, t0);
    RowAfterPass(o1, o2, i1, k, outcome, t1);
    RowAfterPass(o2, o3, i2, k, outcome, t2);
  }

  /** A row that is delivered, has failed or was skipped is never loaded again. */
  lemma EndedIsNotLoaded(o: Tables, items: seq<Key>, k: Key, limit: nat, now: Time)
    requires Loads(o, items, limit, now) && k in o.deliveries
    requires o.deliveries[k].status != Pending && o.deliveries[k].status != Retry
    ensures k !in items
  {
  }

  class Dispatcher {
    const store: Store

    constructor (store: Store)
      ensures this.store == store
    {
      this.store := store;
    }

    /** One turn of the loop: send and record. */
    method DispatchOne(k: Key, outcome: Key -> bool, now: Time, ghost start: Tables, ghost done: seq<Key>)
      requires WithinLimit(start) && k in start.deliveries && k !in done
      requires store.outbox == Dispatched(start, done, outcome, now)
      modifies store`outbox
      ensures store.outbox == Dispatched(start, done + [k], outcome, now)
    {
      hide *;
      DispatchedIsWithinLimit(start, done, outcome, now);
      ghost var before := store.outbox;
      RecordedIsWithinLimit(before, k, outcome(k), now);
      store.RecordFindingNotification(k, outcome(k), now);
      TrimOrphansOnly(Recorded(before, k, outcome(k), now), store.outbox);
      DispatchedOneMore(start, done, k, outcome, now);
    }

    /** One run under the mutex, undisturbed: every loaded row is attempted and recorded exactly
        once and no other row changes. `outcome` stands for looking up the destination and sending. */
    method DispatchPending(outcome: Key -> bool, now: Time) returns (items: seq<Key>)
      requires WithinLimit(store.outbox)
      modifies store`outbox
      ensures Pass(old(store.outbox), store.outbox, items, outcome, now)
      ensures WithinLimit(store.outbox) && (items != [] ==> Bounded(store.outbox))
    {
      hide *;
      items := store.PendingFindingNotifications(50, now);
      ghost var start := store.outbox;
      NothingDispatched(start, items[..0], outcome, now);
      for i := 0 to |items|
        invariant store.outbox == Dispatched(start, items[..i], outcome, now)
      {
        var k := items[i];
        assert items[..i + 1] == items[..i] + [k] && k !in items[..i] && k in start.deliveries by {
          LoadedItem(start, items, 50, now, i);
        }
        DispatchOne(k, outcome, now, start, items[..i]);
      }
      assert items[..|items|] == items;
      DispatchedIsWithinLimit(start, items, outcome, now);
      DispatchedIsPass(start, items, outcome, now);
    }
  }
}
