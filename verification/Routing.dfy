/** Which destinations a finding's transition goes to: operator controls, routes and the least
    cooldown per destination. */
module Routing {
  import opened Models
  import opened Order
  import opened FindingLifecycle

  /** A row of `notification_routes` with its destinations; unreadable filters read as empty. */
  datatype Route = Route(
    id: string, enabled: bool, severities: seq<string>, categories: seq<string>, serverIDs: seq<string>,
    serverTags: seq<string>, transitions: seq<string>, cooldown: nat, destinations: set<string>)

  datatype Window = Window(serverID: string, tag: string, category: string, rule: string, startsAt: Time, endsAt: Time)
  datatype Suppression = Suppression(findingID: string, rule: string, serverID: string, tag: string, expiresAt: Time)

  /** What the operator has configured; `destinations` says which of them are enabled. */
  datatype Config = Config(
    routes: seq<Route>, destinations: map<string, bool>, tags: map<string, seq<string>>,
    windows: seq<Window>, suppressions: seq<Suppression>)

  function Name(kind: Transition): string {
    match kind
    case New => "new"
    case Reopened => "reopened"
    case SeverityIncreased => "severity_increased"
    case Closed => "resolved"
  }

  // ---- filters ----

  predicate Allows(values: seq<string>, value: string) {
    values == [] || value in values
  }

  predicate AllowsFold(values: seq<string>, value: string) {
    values == [] || exists v :: v in values && EqualFold(v, value)
  }

  predicate AllowsTags(wanted: seq<string>, tags: seq<string>) {
    wanted == [] || exists w, t :: w in wanted && t in tags && EqualFold(w, t)
  }

  predicate Matches(r: Route, f: Finding, tags: seq<string>, kind: Transition) {
    && r.enabled
    && Allows(r.severities, f.severity) && AllowsFold(r.categories, f.category) && Allows(r.serverIDs, f.serverID)
    && AllowsTags(r.serverTags, tags) && Allows(r.transitions, Name(kind))
  }

  // The three loops over a filter; an empty filter lets everything through.

  method RouteMatches(values: seq<string>, value: string) returns (ok: bool)
    ensures ok <==> |values| == 0 || exists i :: 0 <= i < |values| && values[i] == value
    ensures ok == Allows(values, value)
  {
    if |values| == 0 {
      return true;
    }
    for i := 0 to |values|
      invariant forall k :: 0 <= k < i ==> values[k] != value
    {
      if values[i] == value {
        return true;
      }
    }
    return false;
  }

  method RouteMatchesFold(values: seq<string>, value: string) returns (ok: bool)
    ensures ok <==> |values| == 0 || exists i :: 0 <= i < |values| && Lower(values[i]) == Lower(value)
    ensures ok == AllowsFold(values, value)
  {
    hide Lower;
    if |values| == 0 {
      return true;
    }
    for i := 0 to |values|
      invariant forall k :: 0 <= k < i ==> Lower(values[k]) != Lower(value)
    {
      if EqualFold(values[i], value) {
        return true;
      }
    }
    return false;
  }

  method RouteTagsMatch(wanted: seq<string>, tags: seq<string>) returns (ok: bool)
    ensures ok <==>
              |wanted| == 0 ||
              exists i, j :: 0 <= i < |wanted| && 0 <= j < |tags| && Lower(wanted[i]) == Lower(tags[j])
    ensures ok == AllowsTags(wanted, tags)
  {
    hide Lower;
    if |wanted| == 0 {
      return true;
    }
    for i := 0 to |wanted|
      invariant forall k, l :: 0 <= k < i && 0 <= l < |tags| ==> Lower(wanted[k]) != Lower(tags[l])
    {
      for j := 0 to |tags|
        invariant forall l :: 0 <= l < j ==> Lower(wanted[i]) != Lower(tags[l])
      {
        if EqualFold(wanted[i], tags[j]) {
          return true;
        }
      }
    }
    return false;
  }

  /** All five filters of an enabled route have to let the transition through. */
  method MatchRoute(r: Route, f: Finding, tags: seq<string>, kind: Transition) returns (ok: bool)
    ensures ok == Matches(r, f, tags, kind)
    ensures ok <==>
              && r.enabled
              && (r.severities == [] || f.severity in r.severities)
              && (r.categories == [] || exists v :: v in r.categories && Lower(v) == Lower(f.category))
              && (r.serverIDs == [] || f.serverID in r.serverIDs)
              && (r.serverTags == [] || exists w, t :: w in r.serverTags && t in tags && Lower(w) == Lower(t))
              && (r.transitions == [] ||
                  (match kind
                   case New => "new"
                   case Reopened => "reopened"
                   case SeverityIncreased => "severity_increased"
                   case Closed => "resolved") in r.transitions)
  {
    hide Lower;
    var severity := RouteMatches(r.severities, f.severity);
    var category := RouteMatchesFold(r.categories, f.category);
    var server := RouteMatches(r.serverIDs, f.serverID);
    var tag := RouteTagsMatch(r.serverTags, tags);
    var transition := RouteMatches(r.transitions, Name(kind));
    ok := r.enabled && severity && category && server && tag && transition;
  }

  predicate HasTag(tags: seq<string>, want: string) {
    want == "" || exists t :: t in tags && EqualFold(t, want)
  }

  predicate InWindow(w: Window, f: Finding, tags: seq<string>, now: Time) {
    && w.startsAt <= now < w.endsAt
    && (w.serverID == "" || w.serverID == f.serverID) && HasTag(tags, w.tag)
    && (w.category == "" || EqualFold(w.category, f.category)) && (w.rule == "" || w.rule == f.ruleID)
  }

  predicate Suppresses(s: Suppression, f: Finding, tags: seq<string>, now: Time) {
    && s.expiresAt > now
    && (s.findingID == "" || s.findingID == f.id) && (s.rule == "" || s.rule == f.ruleID)
    && (s.serverID == "" || s.serverID == f.serverID) && HasTag(tags, s.tag)
  }

  function TagsOf(c: Config, serverID: string): seq<string> {
    if serverID in c.tags then c.tags[serverID] else []
  }

  /** A maintenance window or a suppression covers the finding. */
  predicate Muted(c: Config, f: Finding, now: Time) {
    || (exists w :: w in c.windows && InWindow(w, f, TagsOf(c, f.serverID), now))
    || (exists s :: s in c.suppressions && Suppresses(s, f, TagsOf(c, f.serverID), now))
  }

  /** A condition of a control that is left empty applies to everything. */
  lemma ControlMeaning(w: Window, s: Suppression, f: Finding, tags: seq<string>, now: Time)
    ensures InWindow(w, f, tags, now) <==>
              && w.startsAt <= now && now < w.endsAt
              && (w.serverID != "" ==> f.serverID == w.serverID)
              && (w.tag != "" ==> exists t :: t in tags && Lower(t) == Lower(w.tag))
              && (w.category != "" ==> Lower(f.category) == Lower(w.category))
              && (w.rule != "" ==> f.ruleID == w.rule)
    ensures Suppresses(s, f, tags, now) <==>
              && now < s.expiresAt
              && (s.findingID != "" ==> f.id == s.findingID) && (s.rule != "" ==> f.ruleID == s.rule)
              && (s.serverID != "" ==> f.serverID == s.serverID)
              && (s.tag != "" ==> exists t :: t in tags && Lower(t) == Lower(s.tag))
  {
    hide Lower;
  }

  /** The first match of `matchControls`: maintenance before suppression. */
  method MatchControls(c: Config, f: Finding, now: Time) returns (maintenance: bool, suppressed: bool)
    ensures maintenance || suppressed <==> Muted(c, f, now)
    ensures maintenance <==> exists w :: w in c.windows && InWindow(w, f, TagsOf(c, f.serverID), now)
    ensures suppressed <==>
              !maintenance && exists s :: s in c.suppressions && Suppresses(s, f, TagsOf(c, f.serverID), now)
  {
    var tags := TagsOf(c, f.serverID);
    for i := 0 to |c.windows|
      invariant forall k :: 0 <= k < i ==> !InWindow(c.windows[k], f, tags, now)
    {
      if InWindow(c.windows[i], f, tags, now) {
        return true, false;
      }
    }
    for i := 0 to |c.suppressions|
      invariant forall k :: 0 <= k < i ==> !Suppresses(c.suppressions[k], f, tags, now)
    {
      if Suppresses(c.suppressions[i], f, tags, now) {
        return false, true;
      }
    }
    return false, false;
  }

  // ---- cooldowns ----

  predicate Enabled(c: Config, d: string) {
    d in c.destinations && c.destinations[d]
  }

  predicate Leads(r: Route, f: Finding, tags: seq<string>, kind: Transition, d: string) {
    Matches(r, f, tags, kind) && d in r.destinations
  }

  /** The cooldown in force for `d` after the routes have been taken one by one. */
  function CooldownFor(routes: seq<Route>, f: Finding, tags: seq<string>, kind: Transition, d: string): Option<nat> {
    if routes == [] then None
    else
      var r, current := routes[|routes| - 1], CooldownFor(routes[..|routes| - 1], f, tags, kind, d);
      if Leads(r, f, tags, kind, d) && (current.None? || r.cooldown < current.value) then Some(r.cooldown) else current
  }

  /** `c` is the smallest cooldown of the routes that lead to `d`. */
  ghost predicate IsLeast(routes: seq<Route>, f: Finding, tags: seq<string>, kind: Transition, d: string, c: nat) {
    && (exists r :: r in routes && Leads(r, f, tags, kind, d) && r.cooldown == c)
    && (forall r :: r in routes && Leads(r, f, tags, kind, d) ==> c <= r.cooldown)
  }

  lemma {:induction false} CooldownMeaning(routes: seq<Route>, f: Finding, tags: seq<string>, kind: Transition,
                                           d: string)
    ensures var cooldown := CooldownFor(routes, f, tags, kind, d);
            && (cooldown.None? <==> forall r :: r in routes ==> !Leads(r, f, tags, kind, d))
            && (cooldown.Some? ==> IsLeast(routes, f, tags, kind, d, cooldown.value))
  {
    if routes != [] {
      var front, last := routes[..|routes| - 1], routes[|routes| - 1];
      CooldownMeaning(front, f, tags, kind, d);
      assert forall r :: r in routes <==> r in front || r == last;
    }
  }

  /** The order of the routes does not matter. */
  lemma CooldownOrderFree(routes: seq<Route>, other: seq<Route>, f: Finding, tags: seq<string>, kind: Transition,
                          d: string)
    requires forall r :: r in routes <==> r in other
    ensures CooldownFor(routes, f, tags, kind, d) == CooldownFor(other, f, tags, kind, d)
  {
    hide CooldownFor, Leads;
    CooldownMeaning(routes, f, tags, kind, d);
    CooldownMeaning(other, f, tags, kind, d);
  }

  /** `destinationCooldowns`: every enabled destination some matching route leads to. */
  ghost predicate AreCooldowns(m: map<string, nat>, c: Config, routes: seq<Route>, f: Finding, kind: Transition) {
    forall d {:trigger d in m} ::
      var cooldown := CooldownFor(routes, f, TagsOf(c, f.serverID), kind, d);
      && (d in m <==> Enabled(c, d) && cooldown.Some?)
      && (d in m ==> m[d] == cooldown.value)
  }

  method Cooldowns(c: Config, f: Finding, kind: Transition) returns (m: map<string, nat>)
    ensures AreCooldowns(m, c, c.routes, f, kind)
  {
    m := map[];
    for i := 0 to |c.routes|
      invariant AreCooldowns(m, c, c.routes[..i], f, kind)
    {
      var r := c.routes[i];
      assert c.routes[..i + 1][..i] == c.routes[..i];
      var matched := MatchRoute(r, f, TagsOf(c, f.serverID), kind);
      if matched {
        m := LowerTo(c, r, m);
      }
    }
    assert c.routes[..|c.routes|] == c.routes;
  }

  /** One matching route: its enabled destinations, in id order or any other. */
  method LowerTo(c: Config, r: Route, before: map<string, nat>) returns (m: map<string, nat>)
    ensures forall d {:trigger d in m} ::
              && (d in m <==> d in before || (d in r.destinations && Enabled(c, d)))
              && (d in m ==> m[d] == if d in r.destinations && Enabled(c, d) && (d !in before || r.cooldown < before[d])
                                     then r.cooldown else before[d])
  {
    m := before;
    var left := r.destinations;
    while left != {}
      invariant left <= r.destinations
      invariant forall d {:trigger d in m} ::
                  && (d in m <==> d in before || (d in r.destinations && d !in left && Enabled(c, d)))
                  && (d in m ==> m[d] == if d in r.destinations && d !in left && Enabled(c, d) &&
                                            (d !in before || r.cooldown < before[d])
                                         then r.cooldown else before[d])
      decreases left
    {
      var d :| d in left;
      left := left - {d};
      if Enabled(c, d) && (d !in m || r.cooldown < m[d]) {
        m := m[d := r.cooldown];
      }
    }
  }
}
