/** The top of incident correlation: collecting the groups, building the incidents, and the
    theorems a reader of the incident list relies on. */
module Correlate {
  import opened Models
  import opened Order
  import opened Correlation
  import opened Correlator

  method UniqueSorted(values: seq<string>) returns (out: seq<string>)
    ensures out == InOrder(Elements(values) - {""})
  {
    var seen: set<string> := {};
    out := [];
    for i := 0 to |values|
      invariant seen == Elements(values[..i]) - {""}
      invariant Elements(out) == seen && forall k, l :: 0 <= k < l < |out| ==> out[k] != out[l]
    {
      if values[i] != "" && values[i] !in seen {
        seen := seen + {values[i]};
        out := out + [values[i]];
      }
    }
    assert values[..|values|] == values;
    var a := new string[|out|](i requires 0 <= i < |out| => out[i]);
    assert a[..] == out;
    StringOrder();
    NoDuplicates(out);
    SortSlice(a, StringLe);
    FromMultiset(a[..], seen);
    StrictlySortedUnique(a[..], InOrder(seen));
    out := a[..];
  }

  /** How the folds of `Summarise` take one more finding. */
  lemma FoldsStep(g: seq<Finding>, i: nat)
    requires i < |g|
    ensures FirstStart(g[..i + 1]) ==
              if i > 0 && FirstStart(g[..i]) <= g[i].startedAt then FirstStart(g[..i]) else g[i].startedAt
    ensures LastUpdate(g[..i + 1]) ==
              if i > 0 && LastUpdate(g[..i]) >= g[i].updatedAt then LastUpdate(g[..i]) else g[i].updatedAt
    ensures WorstSeverity(g[..i + 1]) ==
            if SeverityRank(g[i].severity) > SeverityRank(WorstSeverity(g[..i]))
              then g[i].severity else WorstSeverity(g[..i])
    ensures LastResolution(g[..i + 1]) ==
            if g[i].resolvedAt.Some? &&
               (LastResolution(g[..i]).None? || g[i].resolvedAt.value > LastResolution(g[..i]).value)
            then g[i].resolvedAt else LastResolution(g[..i])
    ensures AllResolved(g[..i + 1]) <==> AllResolved(g[..i]) && g[i].status == Resolved
  {
    hide SeverityRank;
    assert g[..i + 1][..i] == g[..i] && g[..i + 1] == g[..i] + [g[i]];
  }

  method BuildIncident(findings: seq<Finding>, rationale: seq<string>) returns (incident: Incident)
    requires findings != []
    ensures incident == Summarise(findings, rationale)
  {
    assert AllResolved(findings[..0]) && WorstSeverity(findings[..0]) == "INFO" &&
      LastResolution(findings[..0]) == None;
    hide FirstStart, LastUpdate, WorstSeverity, LastResolution, AllResolved, SeverityRank;
    var started, updated := findings[0].startedAt, findings[0].updatedAt;
    var status := Resolved;
    var severity := "INFO";
    var resolvedAt: Option<Time> := None;
    for i := 0 to |findings|
      invariant i == 0 ==> started == findings[0].startedAt && updated == findings[0].updatedAt
      invariant i > 0 ==> started == FirstStart(findings[..i]) && updated == LastUpdate(findings[..i])
      invariant status == if AllResolved(findings[..i]) then Resolved else Active
      invariant severity == WorstSeverity(findings[..i]) && resolvedAt == LastResolution(findings[..i])
    {
      var finding := findings[i];
      FoldsStep(findings, i);
      if finding.startedAt < started {
        started := finding.startedAt;
      }
      if finding.updatedAt > updated {
        updated := finding.updatedAt;
      }
      if finding.status != Resolved {
        status := Active;
      }
      if SeverityRank(finding.severity) > SeverityRank(severity) {
        severity := finding.severity;
      }
      if finding.resolvedAt.Some? && (resolvedAt.None? || finding.resolvedAt.value > resolvedAt.value) {
        resolvedAt := finding.resolvedAt;
      }
    }
    assert findings[..|findings|] == findings;
    incident := Incident(IncidentID(findings[0].serverID, findings[0].id), findings[0].serverID, rationale, severity,
                         status, started, updated, if status == Resolved then resolvedAt else None, findings);
  }

  ghost predicate AreGroups(fs: seq<Finding>, classOf: Classes, groups: map<nat, seq<Finding>>)
    requires |classOf| == |fs|
  {
    && groups.Keys == (set r: nat | 0 <= r < |fs| && classOf[r] == r)
    && forall r :: r in groups ==> groups[r] == Members(fs, classOf, r)
  }

  /** The groups by representative, members in list order. */
  method Collect(forest: Forest) returns (groups: map<nat, seq<Finding>>)
    requires forest.Valid()
    modifies forest.parent
    ensures forest.Valid()
    ensures AreGroups(forest.findings, forest.classOf, groups)
  {
    hide Acyclic, Spans;
    var fs := forest.findings;
    ghost var classOf := forest.classOf;
    groups := map[];
    for i := 0 to |fs|
      invariant forest.Valid() && forest.classOf == classOf
      invariant groups.Keys == set x | 0 <= x < i :: classOf[x]
      invariant forall r :: r in groups ==> groups[r] == MembersUpTo(fs, classOf, r, i)
    {
      var r := forest.Root(i);
      NoMembersYet(fs, classOf, r, i);
      groups := groups[r := (if r in groups then groups[r] else []) + [fs[i]]];
    }
    forall r ensures r in groups.Keys <==> 0 <= r < |fs| && classOf[r] == r {
      if 0 <= r < |fs| && classOf[r] == r { assert classOf[r] in groups.Keys; }
    }
  }

  lemma {:induction false} NoMembersYet(fs: seq<Finding>, classOf: Classes, r: nat, k: nat)
    requires k <= |fs| == |classOf|
    ensures (forall x :: 0 <= x < k ==> classOf[x] != r) ==> MembersUpTo(fs, classOf, r, k) == []
  {
    if k > 0 { NoMembersYet(fs, classOf, r, k - 1); }
  }

  predicate NewestFirst(a: Incident, b: Incident) {
    a.startedAt >= b.startedAt
  }

  lemma ReasonsAreNotEmpty(fs: seq<Finding>, classOf: Classes, r: nat)
    requires |classOf| == |fs|
    ensures "" !in Rationale(fs, classOf, r)
  {
  }

  ghost function IncidentsAt(fs: seq<Finding>, classOf: Classes, roots: set<nat>): set<Incident>
    requires |classOf| == |fs| && roots <= Roots(fs, classOf)
  {
    set r | r in roots :: IncidentOf(fs, classOf, r)
  }

  lemma ElementsGrow(fs: seq<Finding>, classOf: Classes, out: seq<Incident>, incident: Incident, roots: set<nat>,
                     r: nat)
    requires |classOf| == |fs| && roots <= Roots(fs, classOf) && r in Roots(fs, classOf)
    requires Elements(out) == IncidentsAt(fs, classOf, roots) && incident == IncidentOf(fs, classOf, r)
    ensures Elements(out + [incident]) == IncidentsAt(fs, classOf, roots + {r})
  {
    assert Elements(out + [incident]) == Elements(out) + {incident};
    assert IncidentsAt(fs, classOf, roots + {r}) == IncidentsAt(fs, classOf, roots) + {incident};
  }

  /** Appends the incident of one group to those of the groups already done. */
  method AppendIncident(fs: seq<Finding>, ghost classOf: Classes, ghost done: set<nat>, ghost r: nat,
                        group: seq<Finding>, reasons: seq<string>, out: seq<Incident>) returns (out': seq<Incident>)
    requires |classOf| == |fs| && done <= Roots(fs, classOf) && r in Roots(fs, classOf)
    requires Elements(out) == IncidentsAt(fs, classOf, done)
    requires group == Members(fs, classOf, r) && Elements(reasons) == Rationale(fs, classOf, r)
    ensures Elements(out') == IncidentsAt(fs, classOf, done + {r}) && |out'| == |out| + 1
  {
    ReasonsAreNotEmpty(fs, classOf, r);
    var rationale := UniqueSorted(reasons);
    assert Elements(reasons) - {""} == Elements(reasons);
    var incident := BuildIncident(group, rationale);
    ElementsGrow(fs, classOf, out, incident, done, r);
    out' := out + [incident];
  }

  lemma GroupsToBuild(fs: seq<Finding>, classOf: Classes, groups: map<nat, seq<Finding>>,
                      reasons: map<nat, seq<string>>)
    requires |classOf| == |fs| && AreGroups(fs, classOf, groups) && Exact(fs, classOf, |fs|, 0, reasons)
    ensures Elements<Incident>([]) == IncidentsAt(fs, classOf, {})
    ensures forall r :: r in Roots(fs, classOf) <==> r in groups && |groups[r]| >= 2
    ensures forall r :: r in groups ==> groups[r] == Members(fs, classOf, r)
    ensures forall r: nat {:trigger ListOf(reasons, r)} :: Elements(ListOf(reasons, r)) == Rationale(fs, classOf, r)
  {
  }

  /** Builds the incident of every group of two or more, visiting the groups in no particular order. */
  method BuildAll(fs: seq<Finding>, ghost classOf: Classes, groups: map<nat, seq<Finding>>,
                  reasons: map<nat, seq<string>>)
    returns (out: seq<Incident>)
    requires |classOf| == |fs| && AreGroups(fs, classOf, groups) && Exact(fs, classOf, |fs|, 0, reasons)
    ensures Elements(out) == IncidentsAt(fs, classOf, Roots(fs, classOf)) && |out| == |Roots(fs, classOf)|
  {
    hide *;
    ghost var roots := Roots(fs, classOf);
    GroupsToBuild(fs, classOf, groups, reasons);
    out := [];
    var remaining := groups.Keys;
    assert roots - remaining == {};
    while remaining != {}
      invariant remaining <= groups.Keys
      invariant Elements(out) == IncidentsAt(fs, classOf, roots - remaining) && |out| == |roots - remaining|
      decreases remaining
    {
      var r :| r in remaining;
      ghost var done := roots - remaining;
      remaining := remaining - {r};
      if |groups[r]| >= 2 {
        assert roots - remaining == done + {r};
        out := AppendIncident(fs, classOf, done, r, groups[r], ListOf(reasons, r), out);
      } else {
        assert roots - remaining == done;
      }
    }
    assert roots - remaining == roots;
  }

  method Correlate(findings: array<Finding>) returns (out: seq<Incident>)
    modifies findings
    ensures multiset(findings[..]) == multiset(old(findings[..]))
    ensures Sorted(findings[..], Before)
    ensures forall i, j :: 0 <= i < j < findings.Length ==>
              || findings[i].startedAt < findings[j].startedAt
              || (findings[i].startedAt == findings[j].startedAt && StringLe(findings[i].id, findings[j].id))
    ensures Lists(findings[..], out)
    ensures forall i, j :: 0 <= i < j < |out| ==> out[i].startedAt >= out[j].startedAt
  {
    if findings.Length < 2 {
      TooFewFindings(findings[..]);
      return [];
    }
    BeforeIsTotalPreorder();
    SortSlice(findings, Before);
    var fs := findings[..];
    var forest := MergeRelated(fs);
    var reasons := forest.reasons;
    ghost var classOf := forest.classOf;
    var groups := Collect(forest);
    out := BuildAll(fs, classOf, groups, reasons);
    var a := new Incident[|out|](i requires 0 <= i < |out| => out[i]);
    assert a[..] == out;
    SortSlice(a, NewestFirst);
    SameElements(a[..], out);
    out := a[..];
  }

  lemma SameElements<T>(s: seq<T>, t: seq<T>)
    requires multiset(s) == multiset(t)
    ensures Elements(s) == Elements(t) && |s| == |t|
  {
    assert |multiset(s)| == |s| && |multiset(t)| == |t|;
    forall x ensures x in s <==> x in t {
      assert x in s <==> x in multiset(s);
      assert x in t <==> x in multiset(t);
    }
  }

  lemma {:induction false} MembersBounded(fs: seq<Finding>, classOf: Classes, r: nat, k: nat)
    requires k <= |fs| == |classOf|
    ensures |MembersUpTo(fs, classOf, r, k)| <= k
  {
    if k > 0 { MembersBounded(fs, classOf, r, k - 1); }
  }

  /** The early return for fewer than two findings agrees with the general rule. */
  lemma TooFewFindings(fs: seq<Finding>)
    requires |fs| < 2
    ensures Roots(fs, FinalClasses(fs)) == {} && IncidentsOf(fs) == {}
  {
    forall r: nat ensures |Members(fs, FinalClasses(fs), r)| < 2 {
      MembersBounded(fs, FinalClasses(fs), r, |fs|);
    }
  }

  // ---- what the groups are ----

  /** The final groups hold one server, span at most the window and are connected by related
      pairs; two related findings end apart only if their groups together would be too wide. */
  lemma GroupsCharacterised(fs: seq<Finding>)
    ensures var c := FinalClasses(fs);
            && Represents(fs, c) && OneServer(fs, c) && Narrow(fs, c) && Connected(fs, c)
            && forall x, y :: 0 <= x < y < |fs| && Related(fs[x], fs[y]) && c[x] != c[y] ==> TooWide(fs, c, c[x], c[y])
  {
    StepsKeepGrouped(fs, |fs|, 0);
    assert MaximalAt(fs, FinalClasses(fs), |fs|, 0);
    forall x, y | 0 <= x < y < |fs| ensures Earlier(x, y, |fs|, 0) { }
  }

  ghost predicate DistinctIDs(fs: seq<Finding>) {
    forall x, y :: 0 <= x < |fs| && 0 <= y < |fs| && fs[x].id == fs[y].id ==> x == y
  }

  /** With distinct finding ids any two sorted arrangements of the input are the same list, so
      the order the findings came in cannot change the incidents. */
  lemma InputOrderIrrelevant(input: seq<Finding>, other: seq<Finding>, sorted: seq<Finding>, otherSorted: seq<Finding>)
    requires DistinctIDs(input) && multiset(input) == multiset(other)
    requires Sorted(sorted, Before) && multiset(sorted) == multiset(input)
    requires Sorted(otherSorted, Before) && multiset(otherSorted) == multiset(other)
    ensures IncidentsOf(sorted) == IncidentsOf(otherSorted)
  {
    StringOrder();
    forall f, g | f in sorted && g in sorted && Before(f, g) && Before(g, f) ensures f == g {
      assert f in multiset(input) && g in multiset(input);
    }
    SortedUnique(sorted, otherSorted, Before);
  }

  lemma {:induction false} MembersMeaning(fs: seq<Finding>, classOf: Classes, r: nat, k: nat, f: Finding)
    requires k <= |fs| == |classOf|
    ensures f in MembersUpTo(fs, classOf, r, k) <==> exists x :: 0 <= x < k && classOf[x] == r && fs[x] == f
  {
    if k > 0 { MembersMeaning(fs, classOf, r, k - 1, f); }
  }

  lemma MemberAt(fs: seq<Finding>, classOf: Classes, r: nat, f: Finding) returns (x: nat)
    requires |classOf| == |fs| && f in Members(fs, classOf, r)
    ensures x < |fs| && classOf[x] == r && fs[x] == f
  {
    MembersMeaning(fs, classOf, r, |fs|, f);
    x :| 0 <= x < |fs| && classOf[x] == r && fs[x] == f;
  }

  lemma IncidentRoot(fs: seq<Finding>, incident: Incident) returns (r: nat)
    requires incident in IncidentsOf(fs)
    ensures r in Roots(fs, FinalClasses(fs)) && incident == IncidentOf(fs, FinalClasses(fs), r)
  {
    r :| r in Roots(fs, FinalClasses(fs)) && incident == IncidentOf(fs, FinalClasses(fs), r);
  }

  /** Every finding is in at most one incident, and no two incidents share an id. */
  lemma IncidentsDisjoint(fs: seq<Finding>, a: Incident, b: Incident)
    requires DistinctIDs(fs) && a in IncidentsOf(fs) && b in IncidentsOf(fs)
    requires (exists f, g :: f in a.findings && g in b.findings && f.id == g.id) || a.id == b.id
    ensures a == b
  {
    var c := FinalClasses(fs);
    var r := IncidentRoot(fs, a);
    var s := IncidentRoot(fs, b);
    var f, g;
    if a.id == b.id {
      f, g := a.findings[0], b.findings[0];
    } else {
      f, g :| f in a.findings && g in b.findings && f.id == g.id;
    }
    var x := MemberAt(fs, c, r, f);
    var y := MemberAt(fs, c, s, g);
    assert x == y;
  }

  /** The folds of `Summarise`, said outright. */
  lemma {:induction false} SummaryMeaning(g: seq<Finding>)
    requires g != []
    ensures forall f :: f in g ==> FirstStart(g) <= f.startedAt && f.updatedAt <= LastUpdate(g)
    ensures exists f :: f in g && f.startedAt == FirstStart(g)
    ensures exists f :: f in g && f.updatedAt == LastUpdate(g)
    ensures forall f :: f in g ==> SeverityRank(f.severity) <= SeverityRank(WorstSeverity(g))
    ensures WorstSeverity(g) == "INFO" || exists f :: f in g && f.severity == WorstSeverity(g)
  {
    var front, last := g[..|g| - 1], g[|g| - 1];
    assert forall f :: f in g <==> f in front || f == last;
    if front != [] {
      SummaryMeaning(front);
      var a :| a in front && a.startedAt == FirstStart(front);
      var b :| b in front && b.updatedAt == LastUpdate(front);
      assert a in g && b in g;
    }
  }

  lemma {:induction false} LastResolutionMeaning(g: seq<Finding>)
    ensures forall f :: f in g && f.resolvedAt.Some? ==>
              LastResolution(g).Some? && f.resolvedAt.value <= LastResolution(g).value
    ensures LastResolution(g).Some? ==> exists f :: f in g && f.resolvedAt == LastResolution(g)
  {
    if g != [] {
      var front, last := g[..|g| - 1], g[|g| - 1];
      assert forall f :: f in g <==> f in front || f == last;
      LastResolutionMeaning(front);
    }
  }

  /** The reasons of all related pairs of a list, earlier finding first. */
  ghost function ReasonsWithin(g: seq<Finding>): set<string> {
    set x, y {:trigger Related(g[x], g[y])} | 0 <= x < |g| && 0 <= y < |g| && x < y && Related(g[x], g[y]) ::
      Relationship(g[x], g[y])
  }

  ghost function ReasonsInClass(fs: seq<Finding>, classOf: Classes, r: nat, k: nat): set<string>
    requires k <= |fs| == |classOf|
  {
    set x, y {:trigger Related(fs[x], fs[y])} |
      0 <= x < k && 0 <= y < k && x < y && Related(fs[x], fs[y]) && classOf[x] == r && classOf[y] == r
      :: Relationship(fs[x], fs[y])
  }

  lemma ReasonsGrow(g: seq<Finding>, f: Finding, reason: string)
    ensures reason in ReasonsWithin(g + [f]) <==>
            reason in ReasonsWithin(g) || exists e :: e in g && Related(e, f) && reason == Relationship(e, f)
  {
    var h := g + [f];
    if reason in ReasonsWithin(h) {
      var x, y :| 0 <= x < y < |h| && Related(h[x], h[y]) && reason == Relationship(h[x], h[y]);
      if y < |g| { assert Related(g[x], g[y]); } else { assert h[x] in g; }
    }
    if reason in ReasonsWithin(g) {
      var x, y :| 0 <= x < y < |g| && Related(g[x], g[y]) && reason == Relationship(g[x], g[y]);
      assert Related(h[x], h[y]);
    }
    if e :| e in g && Related(e, f) && reason == Relationship(e, f) {
      var x :| 0 <= x < |g| && g[x] == e;
      assert Related(h[x], h[|g|]);
    }
  }

  lemma {:induction false} ReasonsOfMembers(fs: seq<Finding>, classOf: Classes, r: nat, k: nat)
    requires k <= |fs| == |classOf|
    ensures ReasonsWithin(MembersUpTo(fs, classOf, r, k)) == ReasonsInClass(fs, classOf, r, k)
  {
    if k > 0 {
      ReasonsOfMembers(fs, classOf, r, k - 1);
      var g := MembersUpTo(fs, classOf, r, k - 1);
      if classOf[k - 1] == r {
        forall reason
          ensures reason in ReasonsWithin(g + [fs[k - 1]]) <==> reason in ReasonsInClass(fs, classOf, r, k)
        {
          ReasonsGrow(g, fs[k - 1], reason);
          ReasonsOfClassGrow(fs, classOf, r, k - 1, g, reason);
        }
      } else {
        assert g + [] == g;
        assert ReasonsInClass(fs, classOf, r, k) == ReasonsInClass(fs, classOf, r, k - 1);
      }
    }
  }

  lemma ReasonsOfClassGrow(fs: seq<Finding>, classOf: Classes, r: nat, k: nat, g: seq<Finding>, reason: string)
    requires k < |fs| == |classOf| && classOf[k] == r && g == MembersUpTo(fs, classOf, r, k)
    ensures reason in ReasonsInClass(fs, classOf, r, k + 1) <==>
            || reason in ReasonsInClass(fs, classOf, r, k)
            || exists e :: e in g && Related(e, fs[k]) && reason == Relationship(e, fs[k])
  {
    forall e ensures e in g <==> exists x :: 0 <= x < k && classOf[x] == r && fs[x] == e {
      MembersMeaning(fs, classOf, r, k, e);
    }
  }

  /** `g` is `fs` read at increasing positions. */
  ghost predicate InOrderAt(g: seq<Finding>, at: seq<nat>, fs: seq<Finding>) {
    && |at| == |g|
    && (forall i :: 0 <= i < |at| ==> at[i] < |fs| && g[i] == fs[at[i]])
    && forall i, j :: 0 <= i < j < |at| ==> at[i] < at[j]
  }

  lemma NothingInOrder(fs: seq<Finding>)
    ensures InOrderAt([], [], fs)
  {
  }

  lemma InOrderGrows(g: seq<Finding>, at: seq<nat>, fs: seq<Finding>, k: nat)
    requires InOrderAt(g, at, fs) && k < |fs| && forall i :: 0 <= i < |at| ==> at[i] < k
    ensures InOrderAt(g + [fs[k]], at + [k], fs)
  {
  }

  lemma {:induction false} MembersInOrder(fs: seq<Finding>, classOf: Classes, r: nat, k: nat) returns (at: seq<nat>)
    requires k <= |fs| == |classOf|
    ensures InOrderAt(MembersUpTo(fs, classOf, r, k), at, fs) && forall i :: 0 <= i < |at| ==> at[i] < k
  {
    hide InOrderAt;
    if k == 0 {
      at := [];
      NothingInOrder(fs);
    } else {
      at := MembersInOrder(fs, classOf, r, k - 1);
      var g := MembersUpTo(fs, classOf, r, k - 1);
      if classOf[k - 1] == r {
        InOrderGrows(g, at, fs, k - 1);
        at := at + [k - 1];
      } else {
        assert g + [] == g;
      }
    }
  }

  /** What an incident says of its findings: one server, at most fifteen minutes apart, named after
      the first of them, and a rationale that is exactly the reasons of the related pairs inside it,
      each once, in order. */
  lemma IncidentMeaning(fs: seq<Finding>, incident: Incident)
    requires incident in IncidentsOf(fs)
    ensures |incident.findings| >= 2 && incident.id == IncidentID(incident.serverID, incident.findings[0].id)
    ensures forall f :: f in incident.findings ==> f in fs && f.serverID == incident.serverID
    ensures forall f, g :: f in incident.findings && g in incident.findings ==> g.startedAt - f.startedAt <= 900
    ensures StrictlySorted(incident.rationale) && Elements(incident.rationale) == ReasonsWithin(incident.findings)
    ensures incident.status == Resolved <==> forall f :: f in incident.findings ==> f.status == Resolved
    ensures incident.status == Active || incident.status == Resolved
  {
    var c := FinalClasses(fs);
    var r := IncidentRoot(fs, incident);
    GroupsCharacterised(fs);
    var g := Members(fs, c, r);
    forall f | f in g ensures f in fs && f.serverID == g[0].serverID {
      var x := MemberAt(fs, c, r, f);
      var y := MemberAt(fs, c, r, g[0]);
    }
    forall e, f | e in g && f in g ensures f.startedAt - e.startedAt <= WINDOW {
      var x := MemberAt(fs, c, r, e);
      var y := MemberAt(fs, c, r, f);
    }
    ReasonsOfMembers(fs, c, r, |fs|);
    assert Rationale(fs, c, r) == ReasonsInClass(fs, c, r, |fs|);
  }

  /** ... and the findings stand in the order of the list. */
  lemma IncidentInOrder(fs: seq<Finding>, incident: Incident) returns (at: seq<nat>)
    requires incident in IncidentsOf(fs)
    ensures InOrderAt(incident.findings, at, fs)
  {
    var r := IncidentRoot(fs, incident);
    at := MembersInOrder(fs, FinalClasses(fs), r, |fs|);
  }

  /** What an incident summarises: it starts with its earliest finding, was updated with its latest,
      is as severe as its worst, and once all are resolved was resolved with the last of them. */
  lemma IncidentSummary(fs: seq<Finding>, incident: Incident)
    requires incident in IncidentsOf(fs)
    ensures forall f :: f in incident.findings ==> incident.startedAt <= f.startedAt
    ensures exists f :: f in incident.findings && f.startedAt == incident.startedAt
    ensures forall f :: f in incident.findings ==> f.updatedAt <= incident.updatedAt
    ensures exists f :: f in incident.findings && f.updatedAt == incident.updatedAt
    ensures forall f :: f in incident.findings ==> SeverityRank(f.severity) <= SeverityRank(incident.severity)
    ensures incident.severity == "INFO" || exists f :: f in incident.findings && f.severity == incident.severity
    ensures incident.status == Active ==> incident.resolvedAt == None
    ensures incident.resolvedAt.Some? ==>
              exists f :: f in incident.findings && f.resolvedAt == incident.resolvedAt
    ensures incident.status == Resolved ==>
              forall f :: f in incident.findings && f.resolvedAt.Some? ==>
                incident.resolvedAt.Some? && f.resolvedAt.value <= incident.resolvedAt.value
  {
    var r := IncidentRoot(fs, incident);
    var g := Members(fs, FinalClasses(fs), r);
    SummaryMeaning(g);
    LastResolutionMeaning(g);
    hide FirstStart, LastUpdate, WorstSeverity, LastResolution, SeverityRank, Members, FinalClasses;
  }

  /** Every group of two or more is an incident: two findings that end together are listed together. */
  lemma GroupsAreListed(fs: seq<Finding>, x: nat, y: nat)
    requires x < y < |fs| && FinalClasses(fs)[x] == FinalClasses(fs)[y]
    ensures exists incident :: incident in IncidentsOf(fs) && IsGroupOf(incident, fs, x)
  {
    hide FinalClasses;
    var c := FinalClasses(fs);
    var r := c[x];
    GroupsCharacterised(fs);
    TwoMembers(fs, c, r, |fs|, x, y);
    var incident := IncidentOf(fs, c, r);
    assert r in Roots(fs, c);
    forall f ensures f in incident.findings <==> exists z :: 0 <= z < |fs| && c[z] == c[x] && fs[z] == f {
      MembersMeaning(fs, c, r, |fs|, f);
    }
    assert IsGroupOf(incident, fs, x);
  }

  /** The incident holds exactly the findings that ended with `x`. */
  ghost predicate IsGroupOf(incident: Incident, fs: seq<Finding>, x: nat)
    requires x < |fs|
  {
    forall f :: f in incident.findings <==>
      exists z :: 0 <= z < |fs| && FinalClasses(fs)[z] == FinalClasses(fs)[x] && fs[z] == f
  }

  lemma {:induction false} TwoMembers(fs: seq<Finding>, classOf: Classes, r: nat, k: nat, x: nat, y: nat)
    requires x < y < k <= |fs| == |classOf| && classOf[x] == r == classOf[y]
    ensures |MembersUpTo(fs, classOf, r, k)| >= 2
  {
    MembersMeaning(fs, classOf, r, y, fs[x]);
    MembersGrow(fs, classOf, r, y + 1, k);
  }

  lemma {:induction false} MembersGrow(fs: seq<Finding>, classOf: Classes, r: nat, j: nat, k: nat)
    requires j <= k <= |fs| == |classOf|
    ensures |MembersUpTo(fs, classOf, r, j)| <= |MembersUpTo(fs, classOf, r, k)|
  {
    if j < k { MembersGrow(fs, classOf, r, j, k - 1); }
  }

  /** Two related findings become one group exactly when they start within fifteen minutes. */
  lemma PairIsGrouped(a: Finding, b: Finding)
    requires Related(a, b) && a.startedAt <= b.startedAt
    ensures FinalClasses([a, b])[0] == FinalClasses([a, b])[1] <==> b.startedAt - a.startedAt <= 900
  {
    GroupsCharacterised([a, b]);
  }

  // ---- what callers may assume of the list ----

  ghost predicate Lists(fs: seq<Finding>, out: seq<Incident>) {
    Elements(out) == IncidentsOf(fs) && |out| == |Roots(fs, FinalClasses(fs))|
  }

  /** `out` is what `Correlate` may return for `input`. */
  ghost predicate Correlated(input: seq<Finding>, out: seq<Incident>) {
    exists sorted :: multiset(sorted) == multiset(input) && Sorted(sorted, Before) && Lists(sorted, out)
  }

  lemma {:induction false} NoRepeats<T>(s: seq<T>)
    ensures |Elements(s)| <= |s|
    ensures |Elements(s)| == |s| ==> forall i, j :: 0 <= i < j < |s| ==> s[i] != s[j]
  {
    if s != [] {
      NoRepeats(s[..|s| - 1]);
      assert Elements(s) == Elements(s[..|s| - 1]) + {s[|s| - 1]};
    }
  }

  lemma {:induction false} OneIncidentPerRoot(fs: seq<Finding>, roots: set<nat>)
    requires DistinctIDs(fs) && roots <= Roots(fs, FinalClasses(fs))
    ensures |IncidentsAt(fs, FinalClasses(fs), roots)| == |roots|
  {
    var c := FinalClasses(fs);
    if roots != {} {
      var r :| r in roots;
      OneIncidentPerRoot(fs, roots - {r});
      hide FinalClasses;
      var incident := IncidentOf(fs, c, r);
      assert IncidentsAt(fs, c, roots) == IncidentsAt(fs, c, roots - {r}) + {incident};
      forall s | s in roots - {r} ensures IncidentOf(fs, c, s) != incident {
        if IncidentOf(fs, c, s) == incident {
          var x := MemberAt(fs, c, r, Members(fs, c, r)[0]);
          var y := MemberAt(fs, c, s, Members(fs, c, s)[0]);
        }
      }
    }
  }

  lemma DistinctIDsPermuted(s: seq<Finding>, t: seq<Finding>)
    requires DistinctIDs(s) && multiset(s) == multiset(t)
    ensures DistinctIDs(t)
  {
    forall x, y | 0 <= x < y < |s| ensures s[x] != s[y] { assert s[x].id != s[y].id; }
    NoDuplicates(s);
    FromMultiset(t, Elements(s));
    forall x, y | 0 <= x < y < |t| ensures t[x].id != t[y].id {
      assert t[x] in Elements(t) && t[y] in Elements(t);
      var u :| 0 <= u < |s| && s[u] == t[x];
      var v :| 0 <= v < |s| && s[v] == t[y];
    }
  }

  lemma ListedOnce(fs: seq<Finding>, out: seq<Incident>)
    requires DistinctIDs(fs) && Lists(fs, out)
    ensures forall k, l :: 0 <= k < l < |out| ==> out[k].id != out[l].id
  {
    OneIncidentPerRoot(fs, Roots(fs, FinalClasses(fs)));
    assert IncidentsAt(fs, FinalClasses(fs), Roots(fs, FinalClasses(fs))) == IncidentsOf(fs);
    NoRepeats(out);
    forall k, l | 0 <= k < l < |out| ensures out[k].id != out[l].id {
      assert out[k] in Elements(out) && out[l] in Elements(out);
      if out[k].id == out[l].id { IncidentsDisjoint(fs, out[k], out[l]); }
    }
  }

  function FindingIDs(incident: Incident): set<string> {
    set f | f in incident.findings :: f.id
  }

  /** From distinct findings, the list names every incident once and no finding twice. */
  lemma ListMeaning(input: seq<Finding>, out: seq<Incident>)
    requires DistinctIDs(input) && Correlated(input, out)
    ensures forall k, l :: 0 <= k < l < |out| ==> out[k].id != out[l].id
    ensures forall a, b :: a in out && b in out && a != b ==> FindingIDs(a) !! FindingIDs(b)
    ensures forall a :: a in out ==>
              a.findings != [] && a.serverID == a.id.serverID && (a.status == Active || a.status == Resolved)
    ensures forall a, f :: a in out && f in a.findings ==> f in input && a.serverID == f.serverID
  {
    var fs :| multiset(fs) == multiset(input) && Sorted(fs, Before) && Lists(fs, out);
    DistinctIDsPermuted(input, fs);
    ListedOnce(fs, out);
    forall a, b | a in out && b in out && a != b ensures FindingIDs(a) !! FindingIDs(b) {
      assert a in Elements(out) && b in Elements(out);
      if x :| x in FindingIDs(a) && x in FindingIDs(b) {
        IncidentsDisjoint(fs, a, b);
      }
    }
    SameElements(fs, input);
    forall a | a in out
      ensures a.findings != [] && a.serverID == a.id.serverID && (a.status == Active || a.status == Resolved)
      ensures forall f :: f in a.findings ==> f in input && a.serverID == f.serverID
    {
      assert a in Elements(out);
      IncidentMeaning(fs, a);
      assert forall f :: f in fs ==> f in Elements(fs);
    }
  }
}
