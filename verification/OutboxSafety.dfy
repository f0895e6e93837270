/** The outbox protocol over every interleaving of finding transactions, history trims and
    dispatcher runs: bounded retries, no send after a success, growing waits, terminal rows. */
module OutboxSafety {
  import opened Models
  import opened FindingLifecycle
  import opened Outbox
  import opened Routing

  const BATCH := 50

  /** One send, with the attempts its row had counted before it. */
  datatype Send = Send(at: Time, tries: nat, ok: bool)

  /** A row as the dispatcher loaded it. */
  datatype Item = Item(key: Key, tries: nat)

  /** The dispatcher holds its mutex while `Working`; `outcome` is that of the first item, once
      it has been attempted and until it is recorded. */
  datatype Dispatcher = Idle | Working(items: seq<Item>, outcome: Option<bool>)

  datatype World = World(outbox: Tables, sends: map<Key, seq<Send>>, now: Time, dispatcher: Dispatcher)

  function Log(w: World, k: Key): seq<Send> {
    if k in w.sends then w.sends[k] else []
  }

  // ---- steps ----

  ghost predicate Tick(w: World, w': World) {
    w'.now >= w.now && w' == w.(now := w'.now)
  }

  /** A finding transaction, a trim or a configuration change. */
  ghost predicate Transact(w: World, w': World) {
    w' == w.(outbox := w'.outbox) && Undisturbed(w.outbox, w'.outbox) && Consistent(w'.outbox)
  }

  ghost predicate DistinctKeys(items: seq<Item>) {
    forall i, j :: 0 <= i < j < |items| ==> items[i].key != items[j].key
  }

  ghost predicate Loadable(w: World, item: Item) {
    item.key in w.outbox.deliveries && Due(w.outbox.deliveries[item.key], w.now) &&
      item.tries == w.outbox.deliveries[item.key].attempts
  }

  ghost predicate Load(w: World, w': World) {
    && w.dispatcher.Idle? && w'.dispatcher.Working? && w'.dispatcher.outcome.None? &&
         w' == w.(dispatcher := w'.dispatcher)
    && |w'.dispatcher.items| <= BATCH && DistinctKeys(w'.dispatcher.items)
    && forall item :: item in w'.dispatcher.items ==> Loadable(w, item)
  }

  /** The send of the first item, or a failed lookup of its destination, which sends nothing. */
  ghost predicate Attempt(w: World, w': World, sent: bool, ok: bool) {
    && w.dispatcher.Working? && w.dispatcher.items != [] && w.dispatcher.outcome.None?
    && (ok ==> sent)
    && var item := w.dispatcher.items[0];
       w' == w.(dispatcher := w.dispatcher.(outcome := Some(ok)),
                sends := if sent then w.sends[item.key := Log(w, item.key) + [Send(w.now, item.tries, ok)]]
                  else w.sends)
  }

  ghost predicate Record(w: World, w': World) {
    && w.dispatcher.Working? && w.dispatcher.items != [] && w.dispatcher.outcome.Some?
    && w' == w.(outbox := Recorded(w.outbox, w.dispatcher.items[0].key, w.dispatcher.outcome.value, w.now),
                dispatcher := Working(w.dispatcher.items[1..], None))
  }

  ghost predicate Finish(w: World, w': World) {
    w.dispatcher == Working([], None) && w' == w.(dispatcher := Idle)
  }

  ghost predicate Next(w: World, w': World) {
    || Tick(w, w') || Transact(w, w') || Load(w, w') || Record(w, w') || Finish(w, w')
    || exists sent, ok :: Attempt(w, w', sent, ok)
  }

  ghost predicate Run(trace: seq<World>) {
    && |trace| > 0 && trace[0].outbox == Tables(map[], map[], 0) && trace[0].sends == map[] &&
         trace[0].dispatcher == Idle
    && forall k :: 0 < k < |trace| ==> Next(trace[k - 1], trace[k])
  }

  // ---- the invariant ----

  /** At most three sends, none after a success, and before each send at least the square of the
      attempts counted so far in minutes since the one before it. */
  ghost predicate GoodLog(log: seq<Send>) {
    && (forall i :: 0 <= i < |log| ==> i <= log[i].tries < MAX_ATTEMPTS)
    && (forall i, j :: 0 <= i < j < |log| ==> !log[i].ok && log[i].tries < log[j].tries)
    && (forall i, j :: 0 <= i < j < |log| ==> log[j].at >= log[i].at + Backoff(log[j].tries))
  }

  ghost predicate NoSuccess(log: seq<Send>) {
    forall s :: s in log ==> !s.ok
  }

  /** Ready to be sent as the attempt after `tries`: everything sent before was earlier, failed
      and waited for. */
  ghost predicate Ready(log: seq<Send>, tries: nat, now: Time) {
    && tries < MAX_ATTEMPTS && NoSuccess(log)
    && forall s :: s in log ==> s.tries < tries && s.at + Backoff(tries) <= now
  }

  /** Attempted and not yet recorded. */
  ghost predicate Attempted(log: seq<Send>, tries: nat, ok: bool, now: Time) {
    && tries < MAX_ATTEMPTS
    && (forall s :: s in log ==> s.tries <= tries && s.at <= now)
    && (ok <==> exists s :: s in log && s.ok)
  }

  /** A row that no dispatcher holds. */
  ghost predicate Resting(log: seq<Send>, r: Delivery, now: Time) {
    && (r.status == Delivered <==> exists s :: s in log && s.ok)
    && (forall s :: s in log ==> s.tries < r.attempts && s.at <= now)
    && (r.status == Retry ==> r.nextAttemptAt.Some? && forall s :: s in log ==>
          s.at + Backoff(r.attempts) <= r.nextAttemptAt.value)
  }

  ghost predicate Held(d: Dispatcher, k: Key) {
    d.Working? && exists item :: item in d.items && item.key == k
  }

  ghost predicate RowsResting(w: World)
    requires Consistent(w.outbox)
  {
    forall k :: k in w.outbox.deliveries && !Held(w.dispatcher, k) ==> Resting(Log(w, k), w.outbox.deliveries[k], w.now)
  }

  /** The row of a loaded item, if it still exists, is as it was loaded. */
  ghost predicate AsLoaded(o: Tables, item: Item) {
    && item.key.event < o.nextID
    && (item.key in o.deliveries ==>
          o.deliveries[item.key].attempts == item.tries &&
            (o.deliveries[item.key].status == Pending || o.deliveries[item.key].status == Retry))
  }

  ghost predicate ItemGood(w: World, item: Item, outcome: Option<bool>) {
    && AsLoaded(w.outbox, item)
    && (if outcome.None? then Ready(Log(w, item.key), item.tries, w.now)
        else Attempted(Log(w, item.key), item.tries, outcome.value, w.now))
  }

  ghost predicate ItemsGood(w: World) {
    w.dispatcher.Working? ==>
      && DistinctKeys(w.dispatcher.items)
      && (w.dispatcher.outcome.Some? ==> w.dispatcher.items != [])
      && forall i :: 0 <= i < |w.dispatcher.items| ==>
           ItemGood(w, w.dispatcher.items[i], if i == 0 then w.dispatcher.outcome else None)
  }

  ghost predicate LogsGood(w: World) {
    && (forall k :: GoodLog(Log(w, k)))
    && (forall k :: k in w.sends ==> k.event < w.outbox.nextID)
  }

  ghost predicate Inv(w: World) {
    Consistent(w.outbox) && LogsGood(w) && ItemsGood(w) && RowsResting(w)
  }

  lemma LogsStay(w: World, w': World)
    requires LogsGood(w) && w'.sends == w.sends && w.outbox.nextID <= w'.outbox.nextID
    ensures LogsGood(w')
    ensures forall k {:trigger Log(w', k)} :: Log(w', k) == Log(w, k)
  {
    hide GoodLog;
    forall k ensures GoodLog(Log(w', k)) { assert GoodLog(Log(w, k)); }
  }

  lemma TickKeeps(w: World, w': World)
    requires Inv(w) && Tick(w, w')
    ensures Inv(w')
  {
    hide GoodLog, Consistent;
    LogsStay(w, w');
    if w.dispatcher.Working? {
      forall i | 0 <= i < |w.dispatcher.items|
        ensures ItemGood(w', w.dispatcher.items[i], if i == 0 then w.dispatcher.outcome else None)
      {
        assert ItemGood(w, w.dispatcher.items[i], if i == 0 then w.dispatcher.outcome else None);
      }
    }
  }

  lemma TransactKeeps(w: World, w': World)
    requires Inv(w) && Transact(w, w')
    ensures Inv(w')
  {
    hide GoodLog, Ready, Attempted;
    LogsStay(w, w');
    if w.dispatcher.Working? {
      forall i | 0 <= i < |w.dispatcher.items|
        ensures ItemGood(w', w.dispatcher.items[i], if i == 0 then w.dispatcher.outcome else None)
      {
        assert ItemGood(w, w.dispatcher.items[i], if i == 0 then w.dispatcher.outcome else None);
      }
    }
    forall k | k in w'.outbox.deliveries && !Held(w'.dispatcher, k)
      ensures Resting(Log(w', k), w'.outbox.deliveries[k], w'.now)
    {
      if k.event >= w.outbox.nextID { assert Log(w', k) == []; }
    }
  }

  lemma LoadKeeps(w: World, w': World)
    requires Inv(w) && Load(w, w')
    ensures Inv(w')
  {
    hide GoodLog;
    LogsStay(w, w');
    forall i | 0 <= i < |w'.dispatcher.items|
      ensures ItemGood(w', w'.dispatcher.items[i], if i == 0 then w'.dispatcher.outcome else None)
    {
      var item := w'.dispatcher.items[i];
      assert Loadable(w, item);
      assert !Held(w.dispatcher, item.key);
      assert Resting(Log(w, item.key), w.outbox.deliveries[item.key], w.now);
    }
  }

  lemma SnocMembers(log: seq<Send>, s: Send)
    ensures forall x :: x in log + [s] <==> x in log || x == s
  {
  }

  lemma SendExtendsLog(log: seq<Send>, s: Send)
    requires GoodLog(log) && Ready(log, s.tries, s.at)
    ensures GoodLog(log + [s])
  {
    hide Backoff;
    var longer := log + [s];
    forall i | 0 <= i < |longer| ensures i <= longer[i].tries < MAX_ATTEMPTS {
      if i == |log| && i > 0 { assert log[i - 1] in log; }
    }
    forall i, j | 0 <= i < j < |longer|
      ensures !longer[i].ok && longer[i].tries < longer[j].tries &&
                longer[j].at >= longer[i].at + Backoff(longer[j].tries)
    {
      if j == |log| { assert log[i] in log; }
    }
  }

  lemma SendIsAttempted(log: seq<Send>, s: Send)
    requires Ready(log, s.tries, s.at)
    ensures Attempted(log + [s], s.tries, s.ok, s.at)
  {
    SnocMembers(log, s);
    assert s in log + [s];
    assert Backoff(s.tries) >= 0;
  }

  lemma AttemptKeeps(w: World, w': World, sent: bool, ok: bool)
    requires Inv(w) && Attempt(w, w', sent, ok)
    ensures Inv(w')
  {
    hide GoodLog;
    var items := w.dispatcher.items;
    var item := items[0];
    assert ItemGood(w, item, None);
    if sent {
      SendExtendsLog(Log(w, item.key), Send(w.now, item.tries, ok));
      SendIsAttempted(Log(w, item.key), Send(w.now, item.tries, ok));
    }
    forall k ensures GoodLog(Log(w', k)) && (k != item.key ==> Log(w', k) == Log(w, k)) {
      assert GoodLog(Log(w, k));
    }
    forall i | 0 <= i < |items| ensures ItemGood(w', items[i], if i == 0 then Some(ok) else None) {
      if i > 0 {
        assert ItemGood(w, items[i], None);
        assert items[0].key != items[i].key;
      } else if !sent {
        assert Log(w', item.key) == Log(w, item.key) && Ready(Log(w, item.key), item.tries, w.now);
        assert Backoff(item.tries) >= 0;
      }
    }
    forall k | k in w'.outbox.deliveries && !Held(w'.dispatcher, k)
      ensures Resting(Log(w', k), w'.outbox.deliveries[k], w'.now)
    {
      assert item in items && !Held(w.dispatcher, k);
    }
  }

  lemma RecordedRests(log: seq<Send>, r: Delivery, tries: nat, ok: bool, now: Time)
    requires Attempted(log, tries, ok, now) && r.attempts == tries && RowConsistent(r) &&
              (r.status == Pending || r.status == Retry)
    ensures RowConsistent(AfterAttempt(r, ok, now)) && Resting(log, AfterAttempt(r, ok, now), now)
  {
  }

  lemma RecordKeeps(w: World, w': World)
    requires Inv(w) && Record(w, w')
    ensures Inv(w')
  {
    hide GoodLog, Ready, Attempted, Resting, RowConsistent, AfterAttempt;
    LogsStay(w, w');
    var items := w.dispatcher.items;
    var item := items[0];
    assert ItemGood(w, item, w.dispatcher.outcome);
    if item.key in w.outbox.deliveries {
      RecordedRests(Log(w, item.key), w.outbox.deliveries[item.key], item.tries, w.dispatcher.outcome.value, w.now);
    }
    forall i | 0 <= i < |items[1..]| ensures ItemGood(w', items[1..][i], None) {
      assert ItemGood(w, items[i + 1], None);
      assert items[0].key != items[i + 1].key;
    }
    forall k | k in w'.outbox.deliveries && !Held(w'.dispatcher, k)
      ensures Resting(Log(w', k), w'.outbox.deliveries[k], w'.now)
    {
      if k != item.key {
        assert !Held(w.dispatcher, k) by {
          if other :| other in items && other.key == k { assert other in items[1..]; }
        }
      }
    }
  }

  lemma FinishKeeps(w: World, w': World)
    requires Inv(w) && Finish(w, w')
    ensures Inv(w')
  {
    hide GoodLog, Resting;
    LogsStay(w, w');
    forall k | k in w'.outbox.deliveries ensures Resting(Log(w', k), w'.outbox.deliveries[k], w'.now) {
      assert !Held(w.dispatcher, k);
    }
  }

  lemma NextKeepsInv(w: World, w': World)
    requires Inv(w) && Next(w, w')
    ensures Inv(w')
  {
    hide Inv, Tick, Transact, Load, Record, Finish, Attempt;
    if Tick(w, w') { TickKeeps(w, w'); }
    else if Transact(w, w') { TransactKeeps(w, w'); }
    else if Load(w, w') { LoadKeeps(w, w'); }
    else if Record(w, w') { RecordKeeps(w, w'); }
    else if Finish(w, w') { FinishKeeps(w, w'); }
    else {
      var sent, ok :| Attempt(w, w', sent, ok);
      AttemptKeeps(w, w', sent, ok);
    }
  }

  lemma InitHolds(w: World)
    requires w.outbox == Tables(map[], map[], 0) && w.sends == map[] && w.dispatcher == Idle
    ensures Inv(w)
  {
  }

  lemma {:induction false} RunKeepsInv(trace: seq<World>)
    requires Run(trace)
    ensures Inv(trace[|trace| - 1])
  {
    hide Inv, Next;
    if |trace| > 1 {
      RunKeepsInv(trace[..|trace| - 1]);
      NextKeepsInv(trace[|trace| - 2], trace[|trace| - 1]);
    } else {
      InitHolds(trace[0]);
    }
  }

  // ---- the theorems ----

  lemma GoodLogIsShort(log: seq<Send>)
    requires GoodLog(log)
    ensures |log| <= MAX_ATTEMPTS
  {
    if |log| > 0 { assert |log| - 1 <= log[|log| - 1].tries; }
  }

  lemma HeldIsLive(w: World, k: Key)
    requires Inv(w) && k in w.outbox.deliveries && Held(w.dispatcher, k)
    ensures w.outbox.deliveries[k].status == Pending || w.outbox.deliveries[k].status == Retry
  {
    hide GoodLog, Attempted, Ready;
    var i :| 0 <= i < |w.dispatcher.items| && w.dispatcher.items[i].key == k;
    assert ItemGood(w, w.dispatcher.items[i], if i == 0 then w.dispatcher.outcome else None);
  }

  lemma DeliveredWasSent(w: World, k: Key)
    requires Inv(w) && k in w.outbox.deliveries
    ensures w.outbox.deliveries[k].status == Delivered ==> exists s :: s in Log(w, k) && s.ok
  {
    hide GoodLog, Attempted, Ready;
    if Held(w.dispatcher, k) { HeldIsLive(w, k); }
  }

  /** What the sends of one event/destination pair look like: three at most, none after a success, a
      second attempt a minute after any earlier one and a third four minutes after. */
  ghost predicate WellSpaced(log: seq<Send>) {
    && |log| <= 3
    && (forall i :: 0 <= i < |log| ==> i <= log[i].tries < 3)
    && forall i, j :: 0 <= i < j < |log| ==>
         && !log[i].ok && log[i].tries < log[j].tries
         && log[j].at - log[i].at >= (if log[j].tries == 1 then 60 else 240)
  }

  lemma GoodLogMeaning(log: seq<Send>)
    requires GoodLog(log)
    ensures WellSpaced(log)
  {
    GoodLogIsShort(log);
    assert Backoff(1) == 60 && Backoff(2) == 240;
  }

  /** Over every interleaving each event/destination pair sees at most three sends, none after a
      successful one, and each waits at least n squared minutes after any earlier one, n being
      the attempts its row counted by then. A row's status and count always agree,
      and a delivered row was sent successfully. */
  lemma SendsOverAllRuns(trace: seq<World>, k: Key)
    requires Run(trace)
    ensures var w := trace[|trace| - 1];
            && WellSpaced(Log(w, k))
            && (k in w.outbox.deliveries ==> RowConsistent(w.outbox.deliveries[k]))
            && (k in w.outbox.deliveries && w.outbox.deliveries[k].status == Delivered ==>
                  exists s :: s in Log(w, k) && s.ok)
  {
    hide GoodLog, WellSpaced, Held, Next;
    RunKeepsInv(trace);
    var w := trace[|trace| - 1];
    GoodLogMeaning(Log(w, k));
    if k in w.outbox.deliveries { DeliveredWasSent(w, k); }
  }

  predicate Terminal(r: Delivery) {
    r.status == Delivered || r.status == Failed || r.status == Cooldown
  }

  lemma TerminalStays(w: World, w': World, k: Key)
    requires Inv(w) && Next(w, w') && k.event < w.outbox.nextID
    ensures w.outbox.nextID <= w'.outbox.nextID
    ensures k in w'.outbox.deliveries ==> k in w.outbox.deliveries
    ensures k in w'.outbox.deliveries && Terminal(w.outbox.deliveries[k]) ==>
              w'.outbox.deliveries[k] == w.outbox.deliveries[k]
  {
    hide Resting, Ready, Attempted, GoodLog, RowConsistent;
    if Record(w, w') {
      assert ItemGood(w, w.dispatcher.items[0], w.dispatcher.outcome);
    }
  }

  lemma RowIsOfOldEvent(w: World, k: Key)
    requires Inv(w) && k in w.outbox.deliveries
    ensures k.event < w.outbox.nextID
  {
    hide GoodLog, Resting;
  }

  lemma {:induction false} TerminalStaysFrom(trace: seq<World>, i: nat, k: Key)
    requires Run(trace) && i < |trace| && k in trace[i].outbox.deliveries && Terminal(trace[i].outbox.deliveries[k])
    ensures k.event < trace[|trace| - 1].outbox.nextID
    ensures k in trace[|trace| - 1].outbox.deliveries ==>
              trace[|trace| - 1].outbox.deliveries[k] == trace[i].outbox.deliveries[k]
    decreases |trace|
  {
    hide Inv, Next, Terminal;
    var front := trace[..|trace| - 1];
    if i < |front| {
      TerminalStaysFrom(front, i, k);
      RunKeepsInv(front);
      TerminalStays(trace[|trace| - 2], trace[|trace| - 1], k);
    } else {
      RunKeepsInv(trace);
      RowIsOfOldEvent(trace[i], k);
    }
  }

  /** Delivered, failed and cooldown rows never change again, and a trimmed row never returns. */
  lemma TerminalRowsOverAllRuns(trace: seq<World>, i: nat, j: nat, k: Key)
    requires Run(trace) && i <= j < |trace| && k in trace[i].outbox.deliveries &&
              Terminal(trace[i].outbox.deliveries[k])
    ensures k in trace[j].outbox.deliveries ==> trace[j].outbox.deliveries[k] == trace[i].outbox.deliveries[k]
  {
    TerminalStaysFrom(trace[..j + 1], i, k);
  }

  // ---- the transactions of the program, one by one ----

  /** A commit that ends with a trim: one with a loud transition, or the trim after a record. */
  ghost predicate Trimming(o: Tables, o': Tables) {
    || Trimmed(o, o', HISTORY_LIMIT)
    || exists c, changes, now :: QueuedAll(o, o', c, changes, now) && Loud(c, changes, now)
  }

  /** A finding transaction with all it queues, a trim, or a deleted destination. */
  ghost predicate Committed(o: Tables, o': Tables) {
    || Trimmed(o, o', HISTORY_LIMIT)
    || (exists c, changes, now :: QueuedAll(o, o', c, changes, now))
    || (exists d :: o' == WithoutDestination(o, d))
  }

  ghost predicate Commit(w: World, w': World) {
    w' == w.(outbox := w'.outbox) && Committed(w.outbox, w'.outbox)
  }

  ghost predicate StoreNext(w: World, w': World) {
    || Tick(w, w') || Commit(w, w') || Load(w, w') || Record(w, w') || Finish(w, w')
    || exists sent, ok :: Attempt(w, w', sent, ok)
  }

  ghost predicate StoreRun(trace: seq<World>) {
    && |trace| > 0 && trace[0].outbox == Tables(map[], map[], 0) && trace[0].sends == map[] &&
         trace[0].dispatcher == Idle
    && forall k :: 0 < k < |trace| ==> StoreNext(trace[k - 1], trace[k])
  }

  /** Each of these transactions is one the dispatcher can live with, and keeps the history within
      its limit; one that trims leaves no event without a row. */
  lemma CommittedKeeps(o: Tables, o': Tables)
    requires Consistent(o) && WithinLimit(o) && Committed(o, o')
    ensures Consistent(o') && Undisturbed(o, o') && WithinLimit(o') && (Trimming(o, o') ==> Bounded(o'))
  {
    hide Consistent, Undisturbed, Trimmed, QueuedAll, Loud, Bounded, WithinLimit, WithoutDestination;
    if Trimmed(o, o', HISTORY_LIMIT) {
      TrimKeeps(o, o', HISTORY_LIMIT);
      BoundedIsWithinLimit(o');
    } else {
      if c, changes, now :| QueuedAll(o, o', c, changes, now) && Loud(c, changes, now) {
        QueuedAllKeeps(o, o', c, changes, now);
      }
      if c, changes, now :| QueuedAll(o, o', c, changes, now) {
        QueuedAllKeeps(o, o', c, changes, now);
      } else {
        var d :| o' == WithoutDestination(o, d);
        DeletionKeeps(o, d);
      }
    }
  }

  lemma BoundedIsWithinLimit(o: Tables)
    requires Bounded(o)
    ensures WithinLimit(o)
  {
  }

  /** Recording an outcome neither adds nor removes a row. */
  lemma RecordedKeepsKeys(o: Tables, k: Key, ok: bool, now: Time)
    ensures WithinLimit(o) ==> WithinLimit(Recorded(o, k, ok, now))
  {
    var o' := Recorded(o, k, ok, now);
    assert |o'.deliveries.Keys| == |o'.deliveries| && |o.deliveries.Keys| == |o.deliveries|;
    assert o'.deliveries.Keys == o.deliveries.Keys;
  }

  lemma StoreNextKeeps(w: World, w': World)
    requires Consistent(w.outbox) && WithinLimit(w.outbox) && StoreNext(w, w')
    ensures Next(w, w') && WithinLimit(w'.outbox)
    ensures Commit(w, w') && Trimming(w.outbox, w'.outbox) ==> Bounded(w'.outbox)
  {
    hide Consistent, Undisturbed, Bounded, WithinLimit, Committed, Trimming, Recorded;
    if Commit(w, w') {
      CommittedKeeps(w.outbox, w'.outbox);
    } else if Record(w, w') {
      RecordedKeepsKeys(w.outbox, w.dispatcher.items[0].key, w.dispatcher.outcome.value, w.now);
    }
  }

  lemma InvIsConsistent(w: World)
    requires Inv(w)
    ensures Consistent(w.outbox)
  {
  }

  /** Runs of the program's own transactions are runs as above, so all that was proved of those
      holds; and the history stays within its limit. */
  lemma {:induction false} StoreRunIsRun(trace: seq<World>)
    requires StoreRun(trace)
    ensures Run(trace) && WithinLimit(trace[|trace| - 1].outbox)
  {
    hide Inv, Next, StoreNext;
    if |trace| > 1 {
      var front := trace[..|trace| - 1];
      StoreRunIsRun(front);
      RunKeepsInv(front);
      InvIsConsistent(trace[|trace| - 2]);
      StoreNextKeeps(trace[|trace| - 2], trace[|trace| - 1]);
      forall k | 0 < k < |trace| ensures Next(trace[k - 1], trace[k]) {
        if k < |front| { assert Next(front[k - 1], front[k]); }
      }
    }
  }

  lemma LimitMeaning(o: Tables)
    ensures WithinLimit(o) ==> |o.deliveries| <= 2000
    ensures Bounded(o) ==> forall id :: id in o.events ==> exists row: Key :: row in o.deliveries && row.event == id
  {
  }

  /** Over every interleaving of finding transactions, trims, deleted destinations and dispatcher
      runs: at most two thousand rows are stored at any time, and after every commit that trims no
      event is left without a row. */
  lemma HistoryOverAllRuns(trace: seq<World>, k: nat)
    requires StoreRun(trace) && k < |trace|
    ensures |trace[k].outbox.deliveries| <= 2000
    ensures k > 0 && Commit(trace[k - 1], trace[k]) && Trimming(trace[k - 1].outbox, trace[k].outbox) ==>
              forall id :: id in trace[k].outbox.events ==>
                exists row: Key :: row in trace[k].outbox.deliveries && row.event == id
  {
    hide Inv, Next, StoreNext, WithinLimit, Bounded, Commit, Trimming;
    StoreRunIsRun(trace[..k + 1]);
    if k > 0 {
      var front := trace[..k];
      StoreRunIsRun(front);
      RunKeepsInv(front);
      InvIsConsistent(trace[k - 1]);
      StoreNextKeeps(trace[k - 1], trace[k]);
    }
    LimitMeaning(trace[k].outbox);
  }
}
