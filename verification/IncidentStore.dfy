/** The stored incidents and their reconciliation with a fresh correlation, over all runs in
    which findings keep changing and rebuilds of any servers overlap. */
module IncidentStore {
  import opened Models
  import opened Order
  import opened Correlation
  import C = Correlate

  const FINDING_LIMIT := 500
  const LOOKBACK: Time := 24 * 60 * 60
  const KEEP_RESOLVED: Time := 90 * 24 * 60 * 60

  datatype Row = Row(
    serverID: string, rationale: seq<string>, severity: string, status: Status,
    startedAt: Time, updatedAt: Time, resolvedAt: Option<Time>)

  /** The tables `incidents` and `incident_findings`. */
  datatype Tables = Tables(rows: map<IncidentID, Row>, members: set<(IncidentID, string)>)

  function FindingIDs(incident: Incident): set<string> { C.FindingIDs(incident) }

  function MembersOf(t: Tables, id: IncidentID): set<string> {
    set m | m in t.members && m.0 == id :: m.1
  }

  /** Insert, or on conflict update everything but the server and the start. */
  function Upserted(t: Tables, incident: Incident): Tables {
    var kept := if incident.id in t.rows then Some(t.rows[incident.id]) else None;
    var row := Row(if kept.Some? then kept.value.serverID else incident.serverID, incident.rationale, incident.severity,
                   incident.status, if kept.Some? then kept.value.startedAt else incident.startedAt,
                   incident.updatedAt, incident.resolvedAt);
    Tables(t.rows[incident.id := row],
           (set m | m in t.members && m.0 != incident.id) + set f | f in incident.findings :: (incident.id, f.id))
  }

  function UpsertedAll(t: Tables, candidates: seq<Incident>): Tables {
    if candidates == [] then t
    else Upserted(UpsertedAll(t, candidates[..|candidates| - 1]), candidates[|candidates| - 1])
  }

  function IDs(candidates: seq<Incident>): set<IncidentID> {
    set incident | incident in candidates :: incident.id
  }

  function StaleIDs(t: Tables, serverID: string, seen: set<IncidentID>): set<IncidentID> {
    set id | id in t.rows && t.rows[id].serverID == serverID && t.rows[id].status == Active && id !in seen
  }

  function ResolvedAll(t: Tables, stale: set<IncidentID>, now: Time): Tables {
    t.(rows := map id | id in t.rows ::
      if id in stale then t.rows[id].(status := Resolved, updatedAt := now, resolvedAt := Some(now)) else t.rows[id])
  }

  /** Deleting an incident deletes its memberships with it. */
  function WithoutOld(t: Tables, cutoff: Time): Tables {
    var rows := map id | id in t.rows && !(t.rows[id].status == Resolved && t.rows[id].updatedAt < cutoff) ::
      t.rows[id];
    Tables(rows, set m | m in t.members && m.0 in rows)
  }

  /** One committed rebuild. */
  function Rebuilt(t: Tables, serverID: string, candidates: seq<Incident>, now: Time): Tables {
    var upserted := UpsertedAll(t, candidates);
    WithoutOld(ResolvedAll(upserted, StaleIDs(upserted, serverID, IDs(candidates)), now), now - KEEP_RESOLVED)
  }

  class Store {
    var tables: Tables

    /** The transaction of `RebuildIncidents`. */
    method Rebuild(serverID: string, candidates: seq<Incident>, now: Time)
      modifies this
      ensures tables == Rebuilt(old(tables), serverID, candidates, now)
    {
      var t := tables;
      var seen: set<IncidentID> := {};
      for i := 0 to |candidates|
        invariant t == UpsertedAll(tables, candidates[..i]) && seen == IDs(candidates[..i])
      {
        assert candidates[..i + 1][..i] == candidates[..i];
        seen := seen + {candidates[i].id};
        t := Upserted(t, candidates[i]);
      }
      assert candidates[..|candidates|] == candidates;
      ghost var upserted := t;
      var stale := StaleIDs(t, serverID, seen);
      ghost var done: set<IncidentID> := {};
      var left := stale;
      while left != {}
        invariant done == stale - left && left <= stale && t == ResolvedAll(upserted, done, now)
        decreases left
      {
        var id :| id in left;
        t := t.(rows := t.rows[id := t.rows[id].(status := Resolved, updatedAt := now, resolvedAt := Some(now))]);
        left, done := left - {id}, done + {id};
      }
      assert done == stale;
      tables := WithoutOld(t, now - KEEP_RESOLVED);
    }
  }

  // ---- one rebuild ----

  predicate Open(t: Tables, id: IncidentID) {
    id in t.rows && t.rows[id].status == Active
  }

  /** What correlation guarantees of the candidates of a server. */
  ghost predicate GoodCandidates(serverID: string, candidates: seq<Incident>) {
    && (forall k, l :: 0 <= k < l < |candidates| ==> candidates[k].id != candidates[l].id)
    && (forall a :: a in candidates ==>
          a.serverID == serverID == a.id.serverID && (a.status == Active || a.status == Resolved))
    && (forall a, b :: a in candidates && b in candidates && a != b ==> FindingIDs(a) !! FindingIDs(b))
  }

  ghost predicate RowsNamed(t: Tables) {
    forall id :: id in t.rows ==> t.rows[id].serverID == id.serverID
  }

  /** Row `id` of `u` holds candidate `a`, on top of what `t` held; only the start and the
      server of an existing row survive. */
  ghost predicate Holds(t: Tables, u: Tables, id: IncidentID, a: Incident) {
    && id in u.rows && MembersOf(u, id) == FindingIDs(a)
    && u.rows[id] == Row(if id in t.rows then t.rows[id].serverID else a.serverID, a.rationale, a.severity, a.status,
                         if id in t.rows then t.rows[id].startedAt else a.startedAt, a.updatedAt, a.resolvedAt)
  }

  ghost predicate Untouched(t: Tables, u: Tables, id: IncidentID) {
    && (id in u.rows <==> id in t.rows)
    && (id in t.rows ==> u.rows[id] == t.rows[id])
    && MembersOf(u, id) == MembersOf(t, id)
  }

  lemma UpsertMeaning(t: Tables, a: Incident, id: IncidentID)
    ensures if id == a.id then Holds(t, Upserted(t, a), id, a) else Untouched(t, Upserted(t, a), id)
  {
    var u := Upserted(t, a);
    if id == a.id {
      forall x ensures x in MembersOf(u, id) <==> x in FindingIDs(a) {
        if x in FindingIDs(a) { assert (id, x) in u.members; }
      }
    } else {
      forall x ensures x in MembersOf(u, id) <==> x in MembersOf(t, id) {
        assert (id, x) in u.members <==> (id, x) in t.members;
      }
    }
  }

  lemma {:induction false} UpsertsMeaning(t: Tables, candidates: seq<Incident>, id: IncidentID)
    requires forall k, l :: 0 <= k < l < |candidates| ==> candidates[k].id != candidates[l].id
    ensures id !in IDs(candidates) ==> Untouched(t, UpsertedAll(t, candidates), id)
    ensures forall a :: a in candidates && a.id == id ==> Holds(t, UpsertedAll(t, candidates), id, a)
  {
    if candidates != [] {
      var front, last := candidates[..|candidates| - 1], candidates[|candidates| - 1];
      UpsertsMeaning(t, front, id);
      UpsertMeaning(UpsertedAll(t, front), last, id);
      assert candidates == front + [last];
      assert IDs(candidates) == IDs(front) + {last.id};
    }
  }

  /** What a rebuild does to the row `id`. */
  lemma RebuiltAt(t: Tables, serverID: string, candidates: seq<Incident>, now: Time, id: IncidentID)
    requires GoodCandidates(serverID, candidates) && RowsNamed(t)
    ensures var r := Rebuilt(t, serverID, candidates, now);
            && (id in r.rows ==> r.rows[id].serverID == id.serverID)
            && (forall a :: a in candidates && a.id == id ==>
                  (Open(r, id) <==> a.status == Active) && (a.status == Active ==> Holds(t, r, id, a)))
            && (id !in IDs(candidates) ==>
                  (Open(r, id) <==> Open(t, id) && id.serverID != serverID) && (Open(r, id) ==> Untouched(t, r, id)))
  {
    UpsertsMeaning(t, candidates, id);
    var u := UpsertedAll(t, candidates);
    var r := Rebuilt(t, serverID, candidates, now);
    if id in r.rows {
      forall x ensures x in MembersOf(r, id) <==> x in MembersOf(u, id) {
        assert (id, x) in r.members <==> (id, x) in u.members;
      }
    }
  }

  /** After a rebuild the server's active incidents are exactly the active candidates, with
      exactly their findings; active incidents of other servers are as they were. */
  lemma RebuildMeaning(t: Tables, serverID: string, candidates: seq<Incident>, now: Time)
    requires GoodCandidates(serverID, candidates) && RowsNamed(t)
    ensures var r := Rebuilt(t, serverID, candidates, now);
            && RowsNamed(r)
            && (forall id :: Open(r, id) && id.serverID == serverID ==>
                  exists a :: a in candidates && a.id == id && a.status == Active)
            && (forall a :: a in candidates && a.status == Active ==> Open(r, a.id) && Holds(t, r, a.id, a))
            && (forall id: IncidentID :: id.serverID != serverID ==>
                  (Open(r, id) <==> Open(t, id)) && (Open(r, id) ==> Untouched(t, r, id)))
  {
    forall id: IncidentID {
      RebuiltAt(t, serverID, candidates, now, id);
    }
  }

  lemma MembersSurvive(t: Tables, serverID: string, candidates: seq<Incident>, now: Time, id: IncidentID)
    ensures var u, r := UpsertedAll(t, candidates), Rebuilt(t, serverID, candidates, now);
            MembersOf(r, id) == if id in r.rows then MembersOf(u, id) else {}
  {
    var u, r := UpsertedAll(t, candidates), Rebuilt(t, serverID, candidates, now);
    forall x ensures x in MembersOf(r, id) <==> id in r.rows && x in MembersOf(u, id) {
      assert (id, x) in r.members <==> (id, x) in u.members && id in r.rows;
    }
  }

  /** What becomes of an incident the call does not list: an active one of the server is stored as
      resolved now and keeps the rest; a resolved one stays for ninety days since its last update and
      then goes with its memberships; an active one of another server stays. */
  lemma UnlistedMeaning(t: Tables, serverID: string, candidates: seq<Incident>, now: Time, id: IncidentID)
    requires GoodCandidates(serverID, candidates) && RowsNamed(t)
    requires id in t.rows && forall a :: a in candidates ==> a.id != id
    ensures var r, row := Rebuilt(t, serverID, candidates, now), t.rows[id];
            && (row.status == Active && row.serverID == serverID ==>
                  && id in r.rows && MembersOf(r, id) == MembersOf(t, id)
                  && r.rows[id] ==
                     Row(row.serverID, row.rationale, row.severity, Resolved, row.startedAt, now, Some(now)))
            && (row.status == Resolved && row.updatedAt >= now - 90 * 24 * 60 * 60 ==> Untouched(t, r, id))
            && (row.status == Resolved && row.updatedAt < now - 90 * 24 * 60 * 60 ==>
                  id !in r.rows && MembersOf(r, id) == {})
            && (row.status == Active && row.serverID != serverID ==> Untouched(t, r, id))
  {
    UpsertsMeaning(t, candidates, id);
    MembersSurvive(t, serverID, candidates, now, id);
    hide UpsertedAll, MembersOf;
  }

  /** ... and of one it lists: an active candidate is stored, and a resolved one as long as its own
      update is not older than ninety days. */
  lemma ListedMeaning(t: Tables, serverID: string, candidates: seq<Incident>, now: Time, a: Incident)
    requires GoodCandidates(serverID, candidates) && RowsNamed(t) && a in candidates
    ensures var r := Rebuilt(t, serverID, candidates, now);
            if a.status == Active || a.updatedAt >= now - 90 * 24 * 60 * 60 then Holds(t, r, a.id, a)
            else a.id !in r.rows && MembersOf(r, a.id) == {}
  {
    UpsertsMeaning(t, candidates, a.id);
    MembersSurvive(t, serverID, candidates, now, a.id);
    hide UpsertedAll, MembersOf;
  }

  /** Nothing is stored that was not stored before or listed now. */
  lemma NothingInvented(t: Tables, serverID: string, candidates: seq<Incident>, now: Time, id: IncidentID)
    requires GoodCandidates(serverID, candidates)
    requires id !in t.rows && forall a :: a in candidates ==> a.id != id
    ensures id !in Rebuilt(t, serverID, candidates, now).rows
  {
    UpsertsMeaning(t, candidates, id);
    hide UpsertedAll;
  }

  // ---- all runs ----

  /** A rebuild that has read its findings and not yet committed. */
  datatype Job = Job(serverID: string, now: Time, candidates: seq<Incident>)

  datatype World = World(findings: map<string, Finding>, tables: Tables, jobs: map<nat, Job>)

  /** The rows the query is about. */
  function Eligible(findings: map<string, Finding>, serverID: string, since: Time): set<string> {
    set id | id in findings && findings[id].serverID == serverID &&
      (findings[id].status != Resolved || (findings[id].resolvedAt.Some? && findings[id].resolvedAt.value >= since))
  }

  /** The query: open or recently resolved findings of the server, newest first, limited. */
  ghost predicate Recent(findings: map<string, Finding>, serverID: string, since: Time, selection: seq<Finding>) {
    var eligible := Eligible(findings, serverID, since);
    && C.DistinctIDs(selection) && |selection| <= FINDING_LIMIT
    && (forall f :: f in selection ==> f.id in eligible && findings[f.id] == f)
    && (forall id :: id in eligible && findings[id] !in selection ==>
          |selection| == FINDING_LIMIT && forall f :: f in selection ==> f.startedAt >= findings[id].startedAt)
  }

  predicate NewerFirst(f: Finding, g: Finding) {
    f.startedAt >= g.startedAt
  }

  lemma NewerFirstIsTotalPreorder()
    ensures TotalPreorder(NewerFirst)
  {
  }

  /** The findings with the given ids, each once. */
  method FindingsOf(findings: map<string, Finding>, ids: set<string>) returns (fs: seq<Finding>)
    requires ids <= findings.Keys && forall id :: id in findings ==> findings[id].id == id
    ensures Elements(fs) == set id | id in ids :: findings[id]
    ensures forall i, j :: 0 <= i < j < |fs| ==> fs[i] != fs[j]
  {
    fs := [];
    var left := ids;
    while left != {}
      invariant left <= ids && Elements(fs) == set id | id in ids - left :: findings[id]
      invariant forall i, j :: 0 <= i < j < |fs| ==> fs[i] != fs[j]
      decreases left
    {
      var id :| id in left;
      left := left - {id};
      assert findings[id] !in Elements(fs);
      ghost var had := Elements(fs);
      fs := fs + [findings[id]];
      assert Elements(fs) == had + {findings[id]};
    }
  }

  lemma FirstAreRecent(findings: map<string, Finding>, serverID: string, since: Time, sorted: seq<Finding>,
                       selection: seq<Finding>)
    requires forall id :: id in findings ==> findings[id].id == id
    requires Sorted(sorted, NewerFirst) && forall i, j :: 0 <= i < j < |sorted| ==> sorted[i] != sorted[j]
    requires Elements(sorted) == set id | id in Eligible(findings, serverID, since) :: findings[id]
    requires selection == if |sorted| <= FINDING_LIMIT then sorted else sorted[..FINDING_LIMIT]
    ensures Recent(findings, serverID, since, selection)
  {
    forall f | f in selection ensures f.id in Eligible(findings, serverID, since) && findings[f.id] == f {
      assert f in Elements(sorted);
    }
    forall i, j | 0 <= i < |selection| && 0 <= j < |selection| && selection[i].id == selection[j].id ensures i == j {
      assert selection[i] in selection && selection[j] in selection;
    }
    forall id | id in Eligible(findings, serverID, since) && findings[id] !in selection
      ensures |selection| == FINDING_LIMIT && forall f :: f in selection ==> f.startedAt >= findings[id].startedAt
    {
      assert findings[id] in Elements(sorted);
      var k :| 0 <= k < |sorted| && sorted[k] == findings[id];
      forall f | f in selection ensures f.startedAt >= findings[id].startedAt {
        var j :| 0 <= j < |selection| && selection[j] == f;
        assert sorted[j] == f && NewerFirst(sorted[j], sorted[k]);
      }
    }
  }

  /** `recentIncidentFindings`: the server's findings that are open or were resolved within a day, at
      most five hundred, and of too many the ones that started last. */
  method RecentIncidentFindings(findings: map<string, Finding>, serverID: string, now: Time)
    returns (selection: seq<Finding>)
    requires forall id :: id in findings ==> findings[id].id == id
    ensures Recent(findings, serverID, now - LOOKBACK, selection)
    ensures |selection| <= 500
    ensures forall f :: f in selection ==>
              && f.id in findings && findings[f.id] == f && f.serverID == serverID
              && (f.status == Resolved ==> f.resolvedAt.Some? && f.resolvedAt.value >= now - 86400)
    ensures forall id ::
              && id in findings && findings[id].serverID == serverID && findings[id] !in selection
              && (findings[id].status == Resolved ==>
                    findings[id].resolvedAt.Some? && findings[id].resolvedAt.value >= now - 86400)
              ==> |selection| == 500 && forall f :: f in selection ==> findings[id].startedAt <= f.startedAt
  {
    var eligible := Eligible(findings, serverID, now - LOOKBACK);
    var rows := FindingsOf(findings, eligible);
    NewerFirstIsTotalPreorder();
    var sorted := Sort(rows, NewerFirst);
    SortSorts(rows, NewerFirst);
    NoDuplicates(rows);
    FromMultiset(sorted, Elements(rows));
    selection := if |sorted| <= FINDING_LIMIT then sorted else sorted[..FINDING_LIMIT];
    FirstAreRecent(findings, serverID, now - LOOKBACK, sorted, selection);
  }

  /** Findings change freely, except that a finding keeps its id and its server. */
  ghost predicate FindingsChange(w: World, w': World) {
    && w'.tables == w.tables && w'.jobs == w.jobs
    && (forall id :: id in w'.findings ==> w'.findings[id].id == id)
    && (forall id :: id in w.findings ==> id in w'.findings && w'.findings[id].serverID == w.findings[id].serverID)
  }

  ghost predicate Read(w: World, w': World, j: nat, job: Job) {
    && j !in w.jobs && w' == w.(jobs := w.jobs[j := job])
    && exists selection :: Recent(w.findings, job.serverID, job.now - LOOKBACK, selection) &&
         C.Correlated(selection, job.candidates)
  }

  ghost predicate Commit(w: World, w': World, j: nat) {
    && j in w.jobs
    && w' == w.(tables := Rebuilt(w.tables, w.jobs[j].serverID, w.jobs[j].candidates, w.jobs[j].now),
         jobs := w.jobs - {j})
  }

  ghost predicate Next(w: World, w': World) {
    || FindingsChange(w, w')
    || (exists j, job :: Read(w, w', j, job))
    || (exists j :: Commit(w, w', j))
  }

  ghost predicate Init(w: World) {
    && (forall id :: id in w.findings ==> w.findings[id].id == id)
    && w.tables == Tables(map[], {}) && w.jobs == map[]
  }

  ghost predicate Belongs(w: World, ids: set<string>, serverID: string) {
    forall x :: x in ids ==> x in w.findings && w.findings[x].serverID == serverID
  }

  ghost predicate GoodJob(w: World, job: Job) {
    && GoodCandidates(job.serverID, job.candidates)
    && forall a :: a in job.candidates ==> Belongs(w, FindingIDs(a), job.serverID)
  }

  /** No finding is in two active incidents. */
  ghost predicate ActiveDisjoint(t: Tables) {
    forall a, b :: Open(t, a) && Open(t, b) && a != b ==> MembersOf(t, a) !! MembersOf(t, b)
  }

  ghost predicate Inv(w: World) {
    && (forall id :: id in w.findings ==> w.findings[id].id == id)
    && RowsNamed(w.tables)
    && (forall j :: j in w.jobs ==> GoodJob(w, w.jobs[j]))
    && (forall id :: Open(w.tables, id) ==> Belongs(w, MembersOf(w.tables, id), id.serverID))
    && ActiveDisjoint(w.tables)
  }

  lemma ReadIsGood(w: World, w': World, j: nat, job: Job)
    requires Inv(w) && Read(w, w', j, job)
    ensures GoodJob(w', job)
  {
    hide C.Correlated;
    var selection :| Recent(w.findings, job.serverID, job.now - LOOKBACK, selection) &&
      C.Correlated(selection, job.candidates);
    C.ListMeaning(selection, job.candidates);
    forall a | a in job.candidates ensures a.serverID == job.serverID && Belongs(w, FindingIDs(a), job.serverID) {
      assert a.findings[0] in selection;
    }
  }

  lemma CommitKeepsDisjoint(w: World, w': World, j: nat)
    requires Inv(w) && Commit(w, w', j)
    ensures Inv(w')
  {
    var job := w.jobs[j];
    RebuildMeaning(w.tables, job.serverID, job.candidates, job.now);
    forall id | Open(w'.tables, id) ensures Belongs(w', MembersOf(w'.tables, id), id.serverID) { }
    forall a, b | Open(w'.tables, a) && Open(w'.tables, b) && a != b
      ensures MembersOf(w'.tables, a) !! MembersOf(w'.tables, b)
    {
      if a.serverID != b.serverID {
        assert Belongs(w', MembersOf(w'.tables, a), a.serverID) && Belongs(w', MembersOf(w'.tables, b), b.serverID);
      }
    }
  }

  lemma NextKeepsInv(w: World, w': World)
    requires Inv(w) && Next(w, w')
    ensures Inv(w')
  {
    if j, job :| Read(w, w', j, job) {
      ReadIsGood(w, w', j, job);
    } else if j :| Commit(w, w', j) {
      CommitKeepsDisjoint(w, w', j);
    }
  }

  ghost predicate Run(trace: seq<World>) {
    && |trace| > 0 && Init(trace[0])
    && forall k :: 0 < k < |trace| ==> Next(trace[k - 1], trace[k])
  }

  lemma {:induction false} RunKeepsInv(trace: seq<World>)
    requires Run(trace)
    ensures Inv(trace[|trace| - 1])
  {
    if |trace| > 1 {
      RunKeepsInv(trace[..|trace| - 1]);
      NextKeepsInv(trace[|trace| - 2], trace[|trace| - 1]);
    }
  }

  /** In every reachable state a finding is in at most one active incident, and a commit leaves
      its server with exactly the active candidates that call computed. */
  lemma ActiveIncidentsOverAllRuns(trace: seq<World>)
    requires Run(trace)
    ensures ActiveDisjoint(trace[|trace| - 1].tables)
    ensures var w := trace[|trace| - 1];
            forall j, w' :: Commit(w, w', j) ==>
              var job := w.jobs[j];
              && (forall id: IncidentID :: id.serverID == job.serverID ==>
                    (Open(w'.tables, id) <==> exists a :: a in job.candidates && a.id == id && a.status == Active))
              && (forall a :: a in job.candidates && a.status == Active ==> MembersOf(w'.tables, a.id) == FindingIDs(a))
  {
    RunKeepsInv(trace);
    var w := trace[|trace| - 1];
    forall j, w' | Commit(w, w', j)
      ensures forall id: IncidentID :: id.serverID == w.jobs[j].serverID ==>
                (Open(w'.tables, id) <==> exists a :: a in w.jobs[j].candidates && a.id == id && a.status == Active)
      ensures forall a :: a in w.jobs[j].candidates && a.status == Active ==>
                MembersOf(w'.tables, a.id) == FindingIDs(a)
    {
      RebuildMeaning(w.tables, w.jobs[j].serverID, w.jobs[j].candidates, w.jobs[j].now);
    }
  }
}
