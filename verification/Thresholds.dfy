/** Which threshold override is in force for a server, what the limited listing lets through of it,
    and the thresholds the analyzer gets. */
module Thresholds {
  import opened Models
  import opened Order

  datatype Scope = GlobalScope | TagScope | ServerScope

  datatype Override = Override(ruleID: string, scope: Scope, scopeValue: string, value: real)

  datatype Server = Server(id: string, tags: seq<string>)

  /** 3 for the server's own override, 2 for a matching tag, 1 for a global one, 0 for no match. */
  function Rank(o: Override, server: Server): nat {
    match o.scope
    case GlobalScope => 1
    case TagScope => if exists t :: t in server.tags && EqualFold(t, o.scopeValue) then 2 else 0
    case ServerScope => if o.scopeValue == server.id then 3 else 0
  }

  predicate Beats(o: Override, r: nat, current: Override, currentRank: nat) {
    r > currentRank || (r == currentRank && StringLess(o.scopeValue, current.scopeValue))
  }

  type Selection = map<string, Override>

  function Select(s: Selection, o: Override, server: Server): Selection {
    if Rank(o, server) > 0 && (o.ruleID !in s || Beats(o, Rank(o, server), s[o.ruleID], Rank(s[o.ruleID], server)))
    then s[o.ruleID := o] else s
  }

  function Selected(items: seq<Override>, server: Server): Selection {
    if items == [] then map[] else Select(Selected(items[..|items| - 1], server), items[|items| - 1], server)
  }

  predicate SameKey(o: Override, p: Override) {
    o.ruleID == p.ruleID && o.scope == p.scope && o.scopeValue == p.scopeValue
  }

  /** The constraints of `threshold_overrides`: UNIQUE(rule_id, scope_type, scope_value), and the
      global scope has no value. */
  ghost predicate UniqueOverrides(rows: seq<Override>) {
    && (forall o :: o in rows && o.scope.GlobalScope? ==> o.scopeValue == "")
    && forall i, j :: 0 <= i < j < |rows| ==> !SameKey(rows[i], rows[j])
  }

  // ---- reading the table ----

  /** What `EffectiveThresholdOverrides` reads of the table. Creating one override stops at as many
      rows; applying a rule profile does not. */
  const LIST_LIMIT := 200

  function ScopeOrder(scope: Scope): nat {
    match scope
    case ServerScope => 0
    case TagScope => 1
    case GlobalScope => 2
  }

  /** ORDER BY rule_id, server before tag before global, scope_value. */
  predicate ListedFirst(o: Override, p: Override) {
    if o.ruleID != p.ruleID then StringLe(o.ruleID, p.ruleID)
    else if o.scope != p.scope then ScopeOrder(o.scope) < ScopeOrder(p.scope)
    else StringLe(o.scopeValue, p.scopeValue)
  }

  lemma ListedFirstIsTotalPreorder()
    ensures TotalPreorder(ListedFirst)
    ensures forall o, p :: ListedFirst(o, p) && ListedFirst(p, o) ==> SameKey(o, p)
  {
    StringOrder();
  }

  /** ... LIMIT. */
  function Listed(rows: seq<Override>, limit: nat): seq<Override> {
    var all := Sort(rows, ListedFirst);
    if |all| <= limit then all else all[..limit]
  }

  method ListThresholdOverrides(rows: seq<Override>, limit: nat) returns (items: seq<Override>)
    ensures items == Listed(rows, limit)
  {
    items := Sort(rows, ListedFirst);
    if |items| > limit {
      items := items[..limit];
    }
  }

  // ---- the selection ----

  /** Nothing that applies to the server and the rule takes precedence over `o`. */
  ghost predicate InForce(o: Override, items: seq<Override>, server: Server) {
    && o in items && Rank(o, server) > 0
    && forall p :: p in items && p.ruleID == o.ruleID ==>
         Rank(p, server) < Rank(o, server) ||
           (Rank(p, server) == Rank(o, server) && StringLe(o.scopeValue, p.scopeValue))
  }

  /** The loop of `EffectiveThresholdOverrides` and its unordered output. */
  method EffectiveThresholdOverrides(rows: seq<Override>, server: Server) returns (out: seq<Override>)
    ensures Lists(out, Selected(Listed(rows, LIST_LIMIT), server))
  {
    hide Listed;
    var items := ListThresholdOverrides(rows, LIST_LIMIT);
    var selected: Selection := map[];
    var rank: map<string, nat> := map[];
    for i := 0 to |items|
      invariant selected == Selected(items[..i], server)
      invariant rank.Keys == selected.Keys && forall rule :: rule in rank ==> rank[rule] == Rank(selected[rule], server)
    {
      var item := items[i];
      assert items[..i + 1][..i] == items[..i];
      var r := Rank(item, server);
      var current := if item.ruleID in rank then rank[item.ruleID] else 0;
      if r > 0 && (r > current || (r == current && StringLess(item.scopeValue, selected[item.ruleID].scopeValue))) {
        selected := selected[item.ruleID := item];
        rank := rank[item.ruleID := r];
      }
    }
    assert items[..|items|] == items;
    RuleIDsKept(items, server);
    out := ListValues(selected);
  }

  /** `out` enumerates the values of `s`, in any order. */
  ghost predicate Lists(out: seq<Override>, s: Selection) {
    && (forall o :: o in out <==> o.ruleID in s && s[o.ruleID] == o)
    && forall i, j :: 0 <= i < j < |out| ==> out[i].ruleID != out[j].ruleID
  }

  method ListValues(s: Selection) returns (out: seq<Override>)
    requires forall rule :: rule in s ==> s[rule].ruleID == rule
    ensures Lists(out, s)
  {
    out := [];
    var left := s.Keys;
    while left != {}
      invariant left <= s.Keys
      invariant forall o :: o in out <==> o.ruleID in s && o.ruleID !in left && s[o.ruleID] == o
      invariant forall i, j :: 0 <= i < j < |out| ==> out[i].ruleID != out[j].ruleID
      decreases left
    {
      var rule :| rule in left;
      left := left - {rule};
      ghost var had := out;
      out := out + [s[rule]];
      assert forall o :: o in out <==> o in had || o == s[rule];
    }
  }

  lemma {:induction false} RuleIDsKept(items: seq<Override>, server: Server)
    ensures forall rule :: rule in Selected(items, server) ==> Selected(items, server)[rule].ruleID == rule
    ensures forall rule :: rule in Selected(items, server) ==> Rank(Selected(items, server)[rule], server) > 0
  {
    if items != [] { RuleIDsKept(items[..|items| - 1], server); }
  }

  /** The loop keeps, per rule, an override nothing takes precedence over, whenever one applies. */
  lemma {:induction false} SelectedMeaning(items: seq<Override>, server: Server, rule: string)
    ensures var s := Selected(items, server);
            && (rule in s <==> exists o :: o in items && o.ruleID == rule && Rank(o, server) > 0)
            && (rule in s ==> s[rule].ruleID == rule && InForce(s[rule], items, server))
  {
    if items != [] {
      var front, last := items[..|items| - 1], items[|items| - 1];
      SelectedMeaning(front, server, rule);
      assert forall o :: o in items <==> o in front || o == last;
      StringOrder();
      RuleIDsKept(front, server);
    }
  }

  lemma SameKeySameRow(rows: seq<Override>, o: Override, p: Override)
    requires UniqueOverrides(rows) && o in rows && p in rows && SameKey(o, p)
    ensures o == p
  {
    var i :| 0 <= i < |rows| && rows[i] == o;
    var j :| 0 <= j < |rows| && rows[j] == p;
    assert SameKey(rows[i], rows[j]) && SameKey(rows[j], rows[i]);
  }

  lemma InForceUnique(o: Override, p: Override, rows: seq<Override>, some: seq<Override>, server: Server)
    requires UniqueOverrides(rows) && InForce(o, rows, server) && InForce(p, some, server) && o.ruleID == p.ruleID
    requires p in rows && o in some
    ensures o == p
  {
    StringOrder();
    SameKeySameRow(rows, o, p);
  }

  /** The override applies to the server: it names it, or one of its tags in any case, or is global. */
  ghost predicate AppliesTo(o: Override, server: Server) {
    match o.scope
    case ServerScope => o.scopeValue == server.id
    case TagScope => exists t :: t in server.tags && Lower(t) == Lower(o.scopeValue)
    case GlobalScope => true
  }

  lemma AppliesByRank(o: Override, server: Server)
    ensures Rank(o, server) > 0 <==> AppliesTo(o, server)
  {
    hide Lower;
  }

  /** Which override is in force: the server's own; without one the matching tag's that comes first;
      without any the global one. */
  lemma InForceMeaning(o: Override, rows: seq<Override>, server: Server)
    requires UniqueOverrides(rows)
    ensures InForce(o, rows, server) <==>
              && o in rows && AppliesTo(o, server)
              && (o.scope == TagScope ==>
                    forall p :: p in rows && p.ruleID == o.ruleID && AppliesTo(p, server) ==>
                      p.scope != ServerScope && (p.scope == TagScope ==> StringLe(o.scopeValue, p.scopeValue)))
              && (o.scope == GlobalScope ==>
                    forall p :: p in rows && p.ruleID == o.ruleID && AppliesTo(p, server) ==> p.scope == GlobalScope)
  {
    StringOrder();
    hide Lower;
    forall p | p in rows ensures (Rank(p, server) > 0 <==> AppliesTo(p, server)) { AppliesByRank(p, server); }
    hide StringLe;
  }

  // ---- what the limit drops ----

  /** How many rows the listing puts before `o`. */
  function Preceding(rows: seq<Override>, o: Override): nat {
    if rows == [] then 0
    else
      var last := rows[|rows| - 1];
      Preceding(rows[..|rows| - 1], o) + if !SameKey(last, o) && ListedFirst(last, o) then 1 else 0
  }

  lemma PrecedingSnoc(rows: seq<Override>, last: Override, o: Override)
    ensures Preceding(rows + [last], o) ==
              Preceding(rows, o) + if !SameKey(last, o) && ListedFirst(last, o) then 1 else 0
  {
    assert (rows + [last])[..|rows + [last]| - 1] == rows;
  }

  lemma {:induction false} PrecedingInsert(rows: seq<Override>, x: Override, o: Override)
    ensures Preceding(Insert(rows, x, ListedFirst), o) ==
              Preceding(rows, o) + if !SameKey(x, o) && ListedFirst(x, o) then 1 else 0
  {
    hide ListedFirst, SameKey;
    if rows == [] {
      PrecedingSnoc([], x, o);
      assert [] + [x] == [x];
    } else {
      var front, last := rows[..|rows| - 1], rows[|rows| - 1];
      if ListedFirst(last, x) {
        PrecedingSnoc(rows, x, o);
      } else {
        PrecedingInsert(front, x, o);
        PrecedingSnoc(Insert(front, x, ListedFirst), last, o);
      }
    }
  }

  lemma {:induction false} PrecedingSort(rows: seq<Override>, o: Override)
    ensures Preceding(Sort(rows, ListedFirst), o) == Preceding(rows, o)
  {
    if rows != [] {
      var front, last := rows[..|rows| - 1], rows[|rows| - 1];
      PrecedingSort(front, o);
      PrecedingInsert(Sort(front, ListedFirst), last, o);
    }
  }

  /** In a strictly sorted list the rows before an element are those at smaller positions. */
  lemma {:induction false} PrecedingPosition(sorted: seq<Override>, i: nat, n: nat)
    requires i < |sorted| && n <= |sorted|
    requires Sorted(sorted, ListedFirst) && UniqueOverrides(sorted)
    ensures Preceding(sorted[..n], sorted[i]) == if n <= i then n else i
  {
    if n > 0 {
      PrecedingPosition(sorted, i, n - 1);
      assert sorted[..n] == sorted[..n - 1] + [sorted[n - 1]];
      PrecedingSnoc(sorted[..n - 1], sorted[n - 1], sorted[i]);
      ListedFirstIsTotalPreorder();
      if n - 1 < i {
        assert ListedFirst(sorted[n - 1], sorted[i]);
      } else if i < n - 1 {
        assert ListedFirst(sorted[i], sorted[n - 1]);
      }
    }
  }

  lemma SortKeepsUnique(rows: seq<Override>)
    requires UniqueOverrides(rows)
    ensures var sorted := Sort(rows, ListedFirst);
            (forall o :: o in sorted <==> o in rows) && UniqueOverrides(sorted)
  {
    hide Sort, SameKey, ListedFirst;
    var sorted := Sort(rows, ListedFirst);
    forall i, j | 0 <= i < j < |rows| ensures rows[i] != rows[j] { SameKeySelf(rows[i]); }
    NoDuplicates(rows);
    FromMultiset(sorted, Elements(rows));
    forall o ensures o in sorted <==> o in rows {
      assert o in Elements(sorted) <==> o in Elements(rows);
    }
    forall j, k | 0 <= j < k < |sorted| ensures !SameKey(sorted[j], sorted[k]) {
      assert sorted[j] in rows && sorted[k] in rows;
      var x :| 0 <= x < |rows| && rows[x] == sorted[j];
      var y :| 0 <= y < |rows| && rows[y] == sorted[k];
      SameKeySymmetric(sorted[j], sorted[k]);
    }
  }

  lemma SameKeySelf(o: Override)
    ensures SameKey(o, o)
  {
  }

  lemma SameKeySymmetric(o: Override, p: Override)
    ensures SameKey(o, p) <==> SameKey(p, o)
  {
  }

  /** A row is read exactly when fewer rows than the limit are listed before it, and with it every
      row listed before it. */
  lemma ListedMeaning(rows: seq<Override>, limit: nat, o: Override)
    requires UniqueOverrides(rows) && o in rows
    ensures o in Listed(rows, limit) <==> Preceding(rows, o) < limit
    ensures forall p :: p in Listed(rows, limit) && ListedFirst(o, p) ==> o in Listed(rows, limit)
    ensures forall p :: p in Listed(rows, limit) ==> p in rows
  {
    hide Sort, SameKey, ListedFirst;
    var sorted, listed := Sort(rows, ListedFirst), Listed(rows, limit);
    SortKeepsUnique(rows);
    ListedFirstIsTotalPreorder();
    SortSorts(rows, ListedFirst);
    var i :| 0 <= i < |sorted| && sorted[i] == o;
    PrecedingPosition(sorted, i, |sorted|);
    assert sorted[..|sorted|] == sorted;
    PrecedingSort(rows, o);
    assert forall k :: 0 <= k < |listed| ==> listed[k] == sorted[k];
    if i < |listed| {
      assert listed[i] == o;
    } else {
      forall p | p in listed ensures p != o && !ListedFirst(o, p) {
        var k :| 0 <= k < |listed| && listed[k] == p;
        SameKeySelf(o);
        assert ListedFirst(sorted[k], sorted[i]) && !SameKey(sorted[k], sorted[i]);
      }
    }
  }

  /** Among the overrides of a rule that apply, the one in force is listed first. */
  lemma InForceIsListedFirst(o: Override, p: Override, rows: seq<Override>, server: Server)
    requires InForce(o, rows, server) && p in rows && p.ruleID == o.ruleID && Rank(p, server) > 0
    ensures ListedFirst(o, p)
  {
  }

  /** The limit takes nothing but whole rules away: the override in force is selected exactly when
      fewer rows than the limit are listed before it, and otherwise nothing is selected for its
      rule, however many rows of that rule were read. */
  lemma LimitMeaning(rows: seq<Override>, limit: nat, server: Server, o: Override)
    requires UniqueOverrides(rows) && InForce(o, rows, server)
    ensures var s := Selected(Listed(rows, limit), server);
            && (o.ruleID in s <==> Preceding(rows, o) < limit)
            && (o.ruleID in s ==> s[o.ruleID] == o)
  {
    hide Selected, Listed, ListedFirst, Rank, Preceding, StringLe;
    var listed := Listed(rows, limit);
    ListedMeaning(rows, limit, o);
    SelectedMeaning(listed, server, o.ruleID);
    if p :| p in listed && p.ruleID == o.ruleID && Rank(p, server) > 0 {
      InForceIsListedFirst(o, p, rows, server);
      InForceUnique(o, Selected(listed, server)[o.ruleID], rows, listed, server);
    }
  }

  lemma NothingApplies(rows: seq<Override>, limit: nat, server: Server, rule: string)
    requires UniqueOverrides(rows) && forall o :: o in rows && o.ruleID == rule ==> Rank(o, server) == 0
    ensures rule !in Selected(Listed(rows, limit), server)
  {
    hide Selected, Listed, ListedFirst, Rank, Preceding;
    SelectedMeaning(Listed(rows, limit), server, rule);
    forall o | o in Listed(rows, limit) ensures o in rows {
      SortKeepsUnique(rows);
      ListedIsSorted(rows, limit, o);
    }
  }

  lemma ListedIsSorted(rows: seq<Override>, limit: nat, o: Override)
    requires o in Listed(rows, limit)
    ensures o in Sort(rows, ListedFirst)
  {
  }

  /** What is selected depends on the stored overrides alone, not on the order they are stored in. */
  lemma SelectionOrderFree(rows: seq<Override>, other: seq<Override>, limit: nat, server: Server)
    requires UniqueOverrides(rows) && multiset(rows) == multiset(other)
    ensures Listed(rows, limit) == Listed(other, limit)
    ensures Selected(Listed(rows, limit), server) == Selected(Listed(other, limit), server)
  {
    hide Sort, SameKey, ListedFirst, Selected;
    ListedFirstIsTotalPreorder();
    SortSorts(rows, ListedFirst);
    SortSorts(other, ListedFirst);
    SortKeepsUnique(rows);
    var sorted := Sort(rows, ListedFirst);
    forall o, p | o in sorted && p in sorted && ListedFirst(o, p) && ListedFirst(p, o) ensures o == p {
      SameKeySameRow(sorted, o, p);
    }
    SortedUnique(sorted, Sort(other, ListedFirst), ListedFirst);
  }

  // ---- applying the overrides ----

  datatype Field =
    | ConnectionHigh | ConnectionCritical | IdleTransactionSeconds | LongTransactionSeconds | LongQuerySeconds
    | DeadTupleRatio | VacuumProgress | CacheHitLow | RollbackRatio | QueryImpactHigh | ReplicaLagSeconds
    | SlotRetainedBytes | RequestedCheckpointRatio | CheckpointIntervalSeconds

  type Values = map<Field, real>

  function RuleOf(f: Field): string {
    match f
    case ConnectionHigh => "connection-utilization-high"
    case ConnectionCritical => "connection-utilization-critical"
    case IdleTransactionSeconds => "idle-in-transaction"
    case LongTransactionSeconds => "long-transaction"
    case LongQuerySeconds => "blocking-queries"
    case DeadTupleRatio => "dead-tuples"
    case VacuumProgress => "vacuum-behind"
    case CacheHitLow => "cache-hit"
    case RollbackRatio => "rollback-ratio"
    case QueryImpactHigh => "query-impact"
    case ReplicaLagSeconds => "standby-replay-lag"
    case SlotRetainedBytes => "inactive-slot-wal"
    case RequestedCheckpointRatio => "requested-checkpoints"
    case CheckpointIntervalSeconds => "checkpoint-frequency"
  }

  function ActivityField(rule: string): Option<Field> {
    if rule == "connection-utilization-high" then Some(ConnectionHigh)
    else if rule == "connection-utilization-critical" then Some(ConnectionCritical)
    else if rule == "idle-in-transaction" then Some(IdleTransactionSeconds)
    else if rule == "long-transaction" then Some(LongTransactionSeconds)
    else if rule == "blocking-queries" then Some(LongQuerySeconds)
    else None
  }

  function TableField(rule: string): Option<Field> {
    if rule == "dead-tuples" then Some(DeadTupleRatio)
    else if rule == "vacuum-behind" then Some(VacuumProgress)
    else if rule == "cache-hit" then Some(CacheHitLow)
    else if rule == "rollback-ratio" then Some(RollbackRatio)
    else if rule == "query-impact" then Some(QueryImpactHigh)
    else None
  }

  function ReplicationField(rule: string): Option<Field> {
    if rule == "standby-replay-lag" then Some(ReplicaLagSeconds)
    else if rule == "inactive-slot-wal" then Some(SlotRetainedBytes)
    else if rule == "requested-checkpoints" then Some(RequestedCheckpointRatio)
    else if rule == "checkpoint-frequency" then Some(CheckpointIntervalSeconds)
    else None
  }

  /** The field a rule's override sets; an unknown rule sets none. */
  function FieldOf(rule: string): Option<Field> {
    if ActivityField(rule).Some? then ActivityField(rule)
    else if TableField(rule).Some? then TableField(rule)
    else ReplicationField(rule)
  }

  lemma RuleSetsField(f: Field)
    ensures FieldOf(RuleOf(f)) == Some(f)
  {
  }

  lemma ActivityNamesRule(rule: string)
    ensures ActivityField(rule).Some? ==> RuleOf(ActivityField(rule).value) == rule
  {
  }

  lemma TableNamesRule(rule: string)
    ensures TableField(rule).Some? ==> RuleOf(TableField(rule).value) == rule
  {
  }

  lemma ReplicationNamesRule(rule: string)
    ensures ReplicationField(rule).Some? ==> RuleOf(ReplicationField(rule).value) == rule
  {
  }

  /** Each rule sets its own field and no two rules set the same one. */
  lemma FieldsMatchRules(rule: string, f: Field)
    ensures FieldOf(rule) == Some(f) <==> rule == RuleOf(f)
  {
    RuleSetsField(f);
    ActivityNamesRule(rule);
    TableNamesRule(rule);
    ReplicationNamesRule(rule);
    hide RuleOf, ActivityField, TableField, ReplicationField;
  }

  function Applied(base: Values, overrides: seq<Override>): Values {
    if overrides == [] then base
    else
      var before, last := Applied(base, overrides[..|overrides| - 1]), overrides[|overrides| - 1];
      if FieldOf(last.ruleID).Some? then before[FieldOf(last.ruleID).value := last.value] else before
  }

  method ApplyThresholdOverrides(base: Values, overrides: seq<Override>) returns (values: Values)
    ensures values == Applied(base, overrides)
  {
    values := base;
    for i := 0 to |overrides|
      invariant values == Applied(base, overrides[..i])
    {
      assert overrides[..i + 1][..i] == overrides[..i];
      var field := FieldOf(overrides[i].ruleID);
      if field.Some? {
        values := values[field.value := overrides[i].value];
      }
    }
    assert overrides[..|overrides|] == overrides;
  }

  lemma {:induction false} AppliedMeaning(base: Values, overrides: seq<Override>, f: Field)
    requires forall i, j :: 0 <= i < j < |overrides| ==> overrides[i].ruleID != overrides[j].ruleID
    ensures forall o :: o in overrides && o.ruleID == RuleOf(f) ==>
              f in Applied(base, overrides) && Applied(base, overrides)[f] == o.value
    ensures (forall o :: o in overrides ==> o.ruleID != RuleOf(f)) ==>
              (f in Applied(base, overrides) <==> f in base) && (f in base ==> Applied(base, overrides)[f] == base[f])
  {
    hide FieldOf, RuleOf;
    if overrides != [] {
      var front, last := overrides[..|overrides| - 1], overrides[|overrides| - 1];
      AppliedMeaning(base, front, f);
      FieldsMatchRules(last.ruleID, f);
      assert forall o :: o in overrides <==> o in front || o == last;
    }
  }

  /** The precedence the operator is promised, end to end: a threshold has the value of the stored
      override in force for its rule (server before tag before global, the first tag scope among
      several), however the overrides are stored and enumerated, as long as fewer than two hundred
      rows are listed before it. From there on, and when none applies, it has its default. */
  lemma ResolvedThreshold(base: Values, rows: seq<Override>, server: Server, out: seq<Override>, f: Field)
    requires UniqueOverrides(rows) && Lists(out, Selected(Listed(rows, 200), server)) && f in base
    ensures f in Applied(base, out)
    ensures forall o :: InForce(o, rows, server) && o.ruleID == RuleOf(f) ==>
              Applied(base, out)[f] == if Preceding(rows, o) < 200 then o.value else base[f]
    ensures (forall o :: o in rows && o.ruleID == RuleOf(f) ==> !AppliesTo(o, server)) ==>
              Applied(base, out)[f] == base[f]
  {
    hide FieldOf, Rank, Selected, Listed, Applied, StringLe, Preceding, RuleOf;
    AppliedMeaning(base, out, f);
    var rule := RuleOf(f);
    forall o | InForce(o, rows, server) && o.ruleID == rule
      ensures Applied(base, out)[f] == if Preceding(rows, o) < LIST_LIMIT then o.value else base[f]
    {
      LimitMeaning(rows, LIST_LIMIT, server, o);
      if Preceding(rows, o) < LIST_LIMIT { assert o in out; }
    }
    if forall o :: o in rows && o.ruleID == rule ==> !AppliesTo(o, server) {
      forall o | o in rows && o.ruleID == rule ensures Rank(o, server) == 0 { AppliesByRank(o, server); }
      NothingApplies(rows, LIST_LIMIT, server, rule);
    }
  }

  // ---- a profile applied to many tags ----

  /** Every field, `VacuumProgress` last: its rule is the last one in the listing. */
  const FIELDS := [ConnectionHigh, ConnectionCritical, IdleTransactionSeconds, LongTransactionSeconds, LongQuerySeconds,
                   DeadTupleRatio, CacheHitLow, RollbackRatio, QueryImpactHigh, ReplicaLagSeconds, SlotRetainedBytes,
                   RequestedCheckpointRatio, CheckpointIntervalSeconds, VacuumProgress]

  /** `applyRuleProfile` for one tag: a row per entry, without asking how many rows there are. */
  function ProfileRows(tag: string, profile: Field -> real): (rows: seq<Override>)
    ensures |rows| == 14
  {
    seq(|FIELDS|, i requires 0 <= i < |FIELDS| => Override(RuleOf(FIELDS[i]), TagScope, tag, profile(FIELDS[i])))
  }

  function ProfiledTags(tags: seq<string>, profile: Field -> real): seq<Override> {
    if tags == [] then [] else ProfiledTags(tags[..|tags| - 1], profile) + ProfileRows(tags[|tags| - 1], profile)
  }

  lemma VacuumIsListedLast(o: Override, f: Field, last: Override)
    requires f != VacuumProgress && o.ruleID == RuleOf(f) && last.ruleID == RuleOf(VacuumProgress)
    ensures ListedFirst(o, last) && !SameKey(o, last)
  {
    assert RuleOf(f)[0] < 'v';
  }

  lemma {:induction false} PrecedingAppend(rows: seq<Override>, more: seq<Override>, o: Override)
    ensures Preceding(rows + more, o) == Preceding(rows, o) + Preceding(more, o)
  {
    hide ListedFirst, SameKey;
    if more == [] {
      assert rows + more == rows;
    } else {
      var front, last := more[..|more| - 1], more[|more| - 1];
      PrecedingAppend(rows, front, o);
      PrecedingSnoc(rows + front, last, o);
      assert rows + more == rows + front + [last];
    }
  }

  lemma {:induction false} PrecedingInProfile(tag: string, profile: Field -> real, o: Override, n: nat)
    requires o.ruleID == RuleOf(VacuumProgress) && n <= 13
    ensures Preceding(ProfileRows(tag, profile)[..n], o) == n
  {
    hide ListedFirst, SameKey, RuleOf;
    if n > 0 {
      var rows := ProfileRows(tag, profile);
      PrecedingInProfile(tag, profile, o, n - 1);
      assert rows[..n] == rows[..n - 1] + [rows[n - 1]];
      PrecedingSnoc(rows[..n - 1], rows[n - 1], o);
      VacuumIsListedLast(rows[n - 1], FIELDS[n - 1], o);
    }
  }

  lemma {:induction false} PrecedingInProfiles(tags: seq<string>, profile: Field -> real, o: Override)
    requires o.ruleID == RuleOf(VacuumProgress)
    ensures Preceding(ProfiledTags(tags, profile), o) >= 13 * |tags|
  {
    hide Preceding, ListedFirst, SameKey, RuleOf, ProfileRows;
    if tags == [] {
      assert Preceding([], o) >= 0;
    } else {
      var front, rows := tags[..|tags| - 1], ProfileRows(tags[|tags| - 1], profile);
      PrecedingInProfiles(front, profile, o);
      PrecedingAppend(ProfiledTags(front, profile), rows, o);
      assert rows == rows[..13] + rows[13..];
      PrecedingInProfile(tags[|tags| - 1], profile, o, 13);
      PrecedingAppend(rows[..13], rows[13..], o);
    }
  }

  lemma RulesDiffer(i: nat, j: nat)
    requires i < j < |FIELDS|
    ensures RuleOf(FIELDS[i]) != RuleOf(FIELDS[j])
  {
    RuleSetsField(FIELDS[i]);
    RuleSetsField(FIELDS[j]);
  }

  lemma {:induction false} ProfiledTagsMeaning(tags: seq<string>, profile: Field -> real)
    ensures forall o :: o in ProfiledTags(tags, profile) ==> o.scope == TagScope && o.scopeValue in tags
    ensures forall tag :: tag in tags ==>
              Override(RuleOf(VacuumProgress), TagScope, tag, profile(VacuumProgress)) in ProfiledTags(tags, profile)
    ensures (forall i, j :: 0 <= i < j < |tags| ==> tags[i] != tags[j]) ==> UniqueOverrides(ProfiledTags(tags, profile))
  {
    hide RuleOf;
    if tags != [] {
      var front, last := tags[..|tags| - 1], tags[|tags| - 1];
      ProfiledTagsMeaning(front, profile);
      var had, rows := ProfiledTags(front, profile), ProfileRows(last, profile);
      forall i, j | 0 <= i < j < |rows| ensures !SameKey(rows[i], rows[j]) { RulesDiffer(i, j); }
      assert rows[13] == Override(RuleOf(VacuumProgress), TagScope, last, profile(VacuumProgress));
      assert forall tag :: tag in tags <==> tag in front || tag == last;
      assert forall o :: o in had + rows <==> o in had || o in rows;
    }
  }

  /** The limit can be exceeded: once a profile of all fourteen rules has been applied to sixteen
      tags, the vacuum threshold is the default for every server, although an override of it is
      in force for each server with one of these tags. */
  lemma ProfilesExceedTheLimit(base: Values, tags: seq<string>, profile: Field -> real, server: Server,
                               out: seq<Override>)
    requires |tags| >= 16 && forall i, j :: 0 <= i < j < |tags| ==> tags[i] != tags[j]
    requires VacuumProgress in base && Lists(out, Selected(Listed(ProfiledTags(tags, profile), LIST_LIMIT), server))
    ensures VacuumProgress in Applied(base, out) && Applied(base, out)[VacuumProgress] == base[VacuumProgress]
    ensures (exists tag, t :: tag in tags && t in server.tags && EqualFold(t, tag)) ==>
              exists o :: InForce(o, ProfiledTags(tags, profile), server) && o.ruleID == RuleOf(VacuumProgress)
  {
    hide Applied, Lists, Listed, Preceding, ProfiledTags, RuleOf, EqualFold;
    var rows, rule := ProfiledTags(tags, profile), RuleOf(VacuumProgress);
    ProfiledTagsMeaning(tags, profile);
    ResolvedThreshold(base, rows, server, out, VacuumProgress);
    SelectedMeaning(rows, server, rule);
    if tag, t :| tag in tags && t in server.tags && EqualFold(t, tag) {
      assert Rank(Override(rule, TagScope, tag, profile(VacuumProgress)), server) == 2;
    }
    forall o | o in rows && o.ruleID == rule ensures Rank(o, server) > 0 <==> AppliesTo(o, server) {
      AppliesByRank(o, server);
    }
    if rule in Selected(rows, server) {
      PrecedingInProfiles(tags, profile, Selected(rows, server)[rule]);
    }
  }
}
