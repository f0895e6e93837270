/** The connected components that the architecture documentation promises as incidents, and when
    the greedy grouping of `Correlate` delivers them. */
module Components {
  import opened Models
  import opened Order
  import opened Correlation
  import opened Correlate

  // ---- the documented graph ----

  /** An edge of the documented graph: related findings that began within fifteen minutes. */
  predicate Linked(a: Finding, b: Finding) {
    Related(a, b) && -WINDOW <= b.startedAt - a.startedAt <= WINDOW
  }

  ghost predicate Path(fs: seq<Finding>, p: seq<nat>) {
    && |p| > 0
    && (forall k :: 0 <= k < |p| ==> p[k] < |fs|)
    && forall k :: 0 < k < |p| ==> Linked(fs[p[k - 1]], fs[p[k]])
  }

  /** `y` is in the connected component of `x`. */
  ghost predicate Reach(fs: seq<Finding>, x: nat, y: nat) {
    exists p :: Path(fs, p) && p[0] == x && p[|p| - 1] == y
  }

  /** The component of `x` spans at most fifteen minutes. */
  ghost predicate Short(fs: seq<Finding>, x: nat) {
    forall y: nat, z: nat :: y < |fs| && z < |fs| && Reach(fs, x, y) && Reach(fs, x, z) ==>
      fs[z].startedAt - fs[y].startedAt <= WINDOW
  }

  lemma ReachSelf(fs: seq<Finding>, x: nat)
    requires x < |fs|
    ensures Reach(fs, x, x)
  {
    assert Path(fs, [x]);
  }

  lemma ReachTransitive(fs: seq<Finding>, x: nat, y: nat, z: nat)
    requires Reach(fs, x, y) && Reach(fs, y, z)
    ensures Reach(fs, x, z)
  {
    hide Linked;
    var p :| Path(fs, p) && p[0] == x && p[|p| - 1] == y;
    var q :| Path(fs, q) && q[0] == y && q[|q| - 1] == z;
    var pq := p + q[1..];
    forall k | 0 < k < |pq| ensures Linked(fs[pq[k - 1]], fs[pq[k]]) {
      if k >= |p| { assert pq[k] == q[k - |p| + 1] && pq[k - 1] == q[k - |p|]; }
    }
    assert Path(fs, pq);
  }

  /** A group never leaves a component. */
  lemma GroupsRefineComponents(fs: seq<Finding>, x: nat, y: nat)
    requires x < |fs| && y < |fs| && FinalClasses(fs)[x] == FinalClasses(fs)[y]
    ensures Reach(fs, x, y)
  {
    var c := FinalClasses(fs);
    GroupsCharacterised(fs);
    hide FinalClasses, Related;
    assert Joined(fs, c, x, y);
    var p :| Chain(fs, c, p) && p[0] == x && p[|p| - 1] == y;
    forall k | 0 < k < |p| ensures Linked(fs[p[k - 1]], fs[p[k]]) {
      assert Adjacent(fs, p[k - 1], p[k]);
      RelatedIsSymmetric(fs[p[k - 1]], fs[p[k]]);
      assert c[p[k - 1]] == c[p[k]];
    }
    assert Path(fs, p);
  }

  /** In a short component no edge was refused. */
  lemma LinkStaysInGroup(fs: seq<Finding>, x: nat, u: nat, v: nat)
    requires u < |fs| && v < |fs| && Short(fs, x) && Reach(fs, x, u) && Reach(fs, x, v) && Linked(fs[u], fs[v])
    ensures FinalClasses(fs)[u] == FinalClasses(fs)[v]
  {
    var c := FinalClasses(fs);
    GroupsCharacterised(fs);
    RelatedIsSymmetric(fs[u], fs[v]);
    hide FinalClasses, Related, Reach;
    if c[u] != c[v] {
      var a, b := if u < v then u else v, if u < v then v else u;
      assert TooWide(fs, c, c[a], c[b]);
      var y, z :|
        && 0 <= y < |fs| && (c[y] == c[a] || c[y] == c[b])
        && 0 <= z < |fs| && (c[z] == c[a] || c[z] == c[b])
        && fs[z].startedAt - fs[y].startedAt > WINDOW;
      MemberReached(fs, x, u, v, y);
      MemberReached(fs, x, u, v, z);
      assert false;
    }
  }

  lemma MemberReached(fs: seq<Finding>, x: nat, u: nat, v: nat, y: nat)
    requires u < |fs| && v < |fs| && y < |fs| && Reach(fs, x, u) && Reach(fs, x, v)
    requires FinalClasses(fs)[y] == FinalClasses(fs)[u] || FinalClasses(fs)[y] == FinalClasses(fs)[v]
    ensures Reach(fs, x, y)
  {
    hide FinalClasses, Reach;
    var w := if FinalClasses(fs)[y] == FinalClasses(fs)[u] then u else v;
    GroupsRefineComponents(fs, w, y);
    ReachTransitive(fs, x, w, y);
  }

  lemma PathParts(fs: seq<Finding>, p: seq<nat>)
    requires Path(fs, p) && |p| > 1
    ensures var front, u, v := p[..|p| - 1], p[|p| - 2], p[|p| - 1];
            && Path(fs, front) && front[0] == p[0] && front[|front| - 1] == u
            && u < |fs| && v < |fs| && Linked(fs[u], fs[v]) && Reach(fs, p[0], u) && Reach(fs, p[0], v)
  {
    hide Linked;
    var front := p[..|p| - 1];
    assert front[0] == p[0] && front[|front| - 1] == p[|p| - 2];
    assert Path(fs, front);
  }

  lemma {:induction false} PathStaysInGroup(fs: seq<Finding>, p: seq<nat>)
    requires Path(fs, p) && Short(fs, p[0])
    ensures p[0] < |fs| && p[|p| - 1] < |fs| && FinalClasses(fs)[p[|p| - 1]] == FinalClasses(fs)[p[0]]
  {
    if |p| > 1 {
      PathParts(fs, p);
      hide *;
      PathStaysInGroup(fs, p[..|p| - 1]);
      LinkStaysInGroup(fs, p[0], p[|p| - 2], p[|p| - 1]);
    }
  }

  /** The group of `x` is its component. */
  ghost predicate IsComponent(fs: seq<Finding>, x: nat)
    requires x < |fs|
  {
    forall y :: 0 <= y < |fs| ==> (Reach(fs, x, y) <==> FinalClasses(fs)[y] == FinalClasses(fs)[x])
  }

  /** When the documented promise holds: a component ends as one group exactly when it spans at
      most fifteen minutes. */
  lemma ComponentIsGroup(fs: seq<Finding>, x: nat)
    requires x < |fs|
    ensures IsComponent(fs, x) <==> Short(fs, x)
  {
    var c := FinalClasses(fs);
    GroupsCharacterised(fs);
    hide FinalClasses;
    if Short(fs, x) {
      forall y | 0 <= y < |fs| ensures Reach(fs, x, y) <==> c[y] == c[x] {
        if c[y] == c[x] { GroupsRefineComponents(fs, x, y); }
        if Reach(fs, x, y) {
          var p :| Path(fs, p) && p[0] == x && p[|p| - 1] == y;
          PathStaysInGroup(fs, p);
        }
      }
    }
  }

  // ---- the incidents ----

  /** The incident consists of exactly the findings of the component of `x`. */
  ghost predicate Covers(incident: Incident, fs: seq<Finding>, x: nat) {
    forall f :: f in incident.findings <==> exists y :: 0 <= y < |fs| && Reach(fs, x, y) && fs[y] == f
  }

  /** ... and so it becomes an incident exactly then, once it holds two findings. */
  lemma ComponentIsIncident(fs: seq<Finding>, x: nat, other: nat)
    requires x < |fs| && other < |fs| && other != x && Reach(fs, x, other)
    ensures (exists incident :: incident in IncidentsOf(fs) && Covers(incident, fs, x)) <==> Short(fs, x)
  {
    hide FinalClasses, IncidentsOf, Reach, Covers, Short;
    if Short(fs, x) {
      var incident := IncidentOfComponent(fs, x, other);
    }
    if incident :| incident in IncidentsOf(fs) && Covers(incident, fs, x) {
      CoveredIsShort(fs, x, incident);
    }
  }

  lemma IncidentMembers(fs: seq<Finding>, incident: Incident) returns (r: nat)
    requires incident in IncidentsOf(fs)
    ensures incident.findings == Members(fs, FinalClasses(fs), r)
  {
    r := IncidentRoot(fs, incident);
  }

  lemma CoveredIsShort(fs: seq<Finding>, x: nat, incident: Incident)
    requires x < |fs| && incident in IncidentsOf(fs) && Covers(incident, fs, x)
    ensures Short(fs, x)
  {
    var c := FinalClasses(fs);
    GroupsCharacterised(fs);
    hide FinalClasses, Reach, IncidentsOf, Members;
    var r := IncidentMembers(fs, incident);
    forall y: nat, z: nat | y < |fs| && z < |fs| && Reach(fs, x, y) && Reach(fs, x, z)
      ensures fs[z].startedAt - fs[y].startedAt <= WINDOW
    {
      var u := MemberAt(fs, c, r, fs[y]);
      var v := MemberAt(fs, c, r, fs[z]);
      assert fs[v].startedAt - fs[u].startedAt <= WINDOW;
    }
  }

  lemma IncidentOfComponent(fs: seq<Finding>, x: nat, other: nat) returns (incident: Incident)
    requires x < |fs| && other < |fs| && other != x && Reach(fs, x, other) && Short(fs, x)
    ensures incident in IncidentsOf(fs) && Covers(incident, fs, x)
  {
    hide FinalClasses, Reach, Short;
    var c := FinalClasses(fs);
    var r := c[x];
    GroupsCharacterised(fs);
    ComponentIsGroup(fs, x);
    TwoMembers(fs, c, r, |fs|, if x < other then x else other, if x < other then other else x);
    incident := IncidentOf(fs, c, r);
    forall f ensures f in incident.findings <==> exists y :: 0 <= y < |fs| && Reach(fs, x, y) && fs[y] == f {
      MembersMeaning(fs, c, r, |fs|, f);
    }
  }

  // ---- where the promise fails ----

  /** Three findings about one resource, ten minutes apart: connected, but never one incident. */
  lemma ComponentCanBeSplit(a: Finding, b: Finding, c: Finding)
    requires a.serverID == b.serverID == c.serverID && a.resource == b.resource == c.resource != ""
    requires b.startedAt == a.startedAt + 600 && c.startedAt == b.startedAt + 600
    ensures var fs := [a, b, c];
            Sorted(fs, Before) && Reach(fs, 0, 2) && FinalClasses(fs)[0] != FinalClasses(fs)[2] && !Short(fs, 0)
  {
    var fs := [a, b, c];
    assert Path(fs, [0, 1, 2]);
    ReachSelf(fs, 0);
    GroupsCharacterised(fs);
  }
}
