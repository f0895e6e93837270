/** What incident correlation computes: which pairs of findings are related, how the
    greedy merge groups them, and what holds of the final groups. */
module Correlation {
  import opened Models
  import opened Order

  const WINDOW: int := 15 * 60

  // ---- the relationship between two findings ----

  function RelatedCategories(left: string, right: string): string {
    if left == "connections" && right == "locks" then "connection pressure and lock waits are operationally related"
    else if left == "connections" && right == "transactions" then "connection and transaction pressure overlap"
    else if left == "locks" && right == "queries" then "blocked work and query pressure are operationally related"
    else if left == "locks" && right == "transactions"
      then "lock waits and transaction lifetime are operationally related"
    else if left == "replication" && right == "wal"
      then "replication progress and WAL pressure share the PostgreSQL write path"
    else if left == "transactions" && right == "vacuum" then "long transactions can overlap vacuum cleanup pressure"
    else if left == "performance" && right == "queries" then "query workload and observed performance pressure overlap"
    else ""
  }

  const SAME_CATEGORY_SIGNALS: set<string> :=
    {"connections", "locks", "replication", "transactions", "vacuum", "wal"}

  /** Why `a` and `b` belong together; empty when nothing relates them. */
  function Relationship(a: Finding, b: Finding): string {
    var left, right := Lower(a.category), Lower(b.category);
    if a.resource != "" && a.resource == b.resource then
      "both findings reference resource " + a.resource
    else if left == right && left in SAME_CATEGORY_SIGNALS then
      "both findings concern the PostgreSQL " + a.category + " subsystem"
    else if RelatedCategories(left, right) != "" then RelatedCategories(left, right)
    else RelatedCategories(right, left)
  }

  predicate Related(a: Finding, b: Finding) {
    a.serverID == b.serverID && Relationship(a, b) != ""
  }

  /** Whether two findings are related does not depend on which of them is named first. */
  lemma RelatedIsSymmetric(a: Finding, b: Finding)
    ensures Related(a, b) <==> Related(b, a)
  {
    hide RelatedCategories, Lower;
  }

  /** The pairs of categories that are operationally related. */
  predicate ListedPair(left: string, right: string) {
    || (left == "connections" && (right == "locks" || right == "transactions"))
    || (left == "locks" && (right == "queries" || right == "transactions"))
    || (left == "replication" && right == "wal")
    || (left == "transactions" && right == "vacuum")
    || (left == "performance" && right == "queries")
  }

  lemma ConnectionsAreRelated(left: string, right: string)
    requires ListedPair(left, right) && left == "connections"
    ensures |RelatedCategories(left, right)| > 0
  {
  }

  lemma LocksAreRelated(left: string, right: string)
    requires ListedPair(left, right) && left == "locks"
    ensures |RelatedCategories(left, right)| > 0
  {
  }

  lemma OthersAreRelated(left: string, right: string)
    requires ListedPair(left, right) && left != "connections" && left != "locks"
    ensures |RelatedCategories(left, right)| > 0
  {
  }

  lemma UnlistedAreNot(left: string, right: string)
    requires !ListedPair(left, right)
    ensures RelatedCategories(left, right) == ""
  {
  }

  lemma PairsAreListed(left: string, right: string)
    ensures RelatedCategories(left, right) != "" <==> ListedPair(left, right)
  {
    hide *;
    if !ListedPair(left, right) {
      UnlistedAreNot(left, right);
    } else if left == "connections" {
      ConnectionsAreRelated(left, right);
    } else if left == "locks" {
      LocksAreRelated(left, right);
    } else {
      OthersAreRelated(left, right);
    }
  }

  lemma SignalsAreListed(category: string)
    ensures category in SAME_CATEGORY_SIGNALS <==>
              || category == "connections" || category == "locks" || category == "replication"
              || category == "transactions" || category == "vacuum" || category == "wal"
  {
  }

  /** Which findings are related: those that share a resource, those in one and the same signal
      category, and those in two categories of a listed pair, in either order. */
  lemma RelatedMeaning(a: Finding, b: Finding)
    ensures var left, right := Lower(a.category), Lower(b.category);
            Related(a, b) <==>
              && a.serverID == b.serverID
              && (|| (a.resource != "" && a.resource == b.resource)
                  || (left == right && left in SAME_CATEGORY_SIGNALS)
                  || ListedPair(left, right) || ListedPair(right, left))
  {
    var left, right := Lower(a.category), Lower(b.category);
    PairsAreListed(left, right);
    PairsAreListed(right, left);
    hide Lower, RelatedCategories, ListedPair;
    assert |"both findings reference resource "| > 0 && |"both findings concern the PostgreSQL "| > 0;
  }

  /** The reason given: a shared resource before a shared subsystem before a pair of categories. */
  lemma ReasonMeaning(a: Finding, b: Finding)
    ensures a.resource != "" && a.resource == b.resource ==>
              Relationship(a, b) == "both findings reference resource " + a.resource
    ensures (a.resource == "" || a.resource != b.resource) && Lower(a.category) == Lower(b.category) &&
            Lower(a.category) in SAME_CATEGORY_SIGNALS ==>
              Relationship(a, b) == "both findings concern the PostgreSQL " + a.category + " subsystem"
    ensures (a.resource == "" || a.resource != b.resource) && Lower(a.category) != Lower(b.category) &&
            ListedPair(Lower(a.category), Lower(b.category)) ==>
              Relationship(a, b) == RelatedCategories(Lower(a.category), Lower(b.category))
  {
    PairsAreListed(Lower(a.category), Lower(b.category));
    hide Lower, RelatedCategories, ListedPair;
  }

  /** The order `Correlate` sorts by. */
  predicate Before(a: Finding, b: Finding) {
    a.startedAt < b.startedAt || (a.startedAt == b.startedAt && StringLe(a.id, b.id))
  }

  lemma BeforeIsTotalPreorder()
    ensures TotalPreorder(Before)
  {
    StringOrder();
  }

  // ---- grouping ----

  /** `classOf[x]` is the representative of finding `x`'s group. */
  type Classes = seq<nat>

  ghost predicate Represents(fs: seq<Finding>, classOf: Classes) {
    && |classOf| == |fs|
    && forall x :: 0 <= x < |fs| ==> classOf[x] < |fs| && classOf[classOf[x]] == classOf[x]
  }

  /** Some two findings of the classes `r` and `s` start more than the window apart. */
  ghost predicate TooWide(fs: seq<Finding>, classOf: Classes, r: nat, s: nat)
    requires |classOf| == |fs|
  {
    exists x, y ::
      && 0 <= x < |fs| && (classOf[x] == r || classOf[x] == s)
      && 0 <= y < |fs| && (classOf[y] == r || classOf[y] == s)
      && fs[y].startedAt - fs[x].startedAt > WINDOW
  }

  function Absorb(classOf: Classes, r: nat, s: nat): (c: Classes)
    ensures |c| == |classOf|
  {
    seq(|classOf|, x requires 0 <= x < |classOf| => if classOf[x] == s then r else classOf[x])
  }

  function Singletons(n: nat): (c: Classes)
    ensures |c| == n
  {
    seq(n, x => x)
  }

  /** One attempt to bring the groups of findings `a` and `b` together. */
  ghost function Merge(fs: seq<Finding>, classOf: Classes, a: nat, b: nat): (c: Classes)
    requires |classOf| == |fs| && a < |fs| && b < |fs|
    ensures |c| == |classOf|
  {
    if classOf[a] == classOf[b] || TooWide(fs, classOf, classOf[a], classOf[b]) then classOf
    else Absorb(classOf, classOf[a], classOf[b])
  }

  /** The pair (x, y) comes before the pair (i, j) in the double loop. */
  predicate Earlier(x: nat, y: nat, i: nat, j: nat) {
    x < i || (x == i && y < j)
  }

  /** The classes after every pair before (i, j) has been tried: the plain double loop over
      all pairs x < y, with no window test. */
  ghost function ClassesAt(fs: seq<Finding>, i: nat, j: nat): (c: Classes)
    requires i <= |fs| && j <= |fs|
    ensures |c| == |fs|
    decreases i, j
  {
    if j > i + 1 then
      var c := ClassesAt(fs, i, j - 1);
      if i < |fs| && Related(fs[i], fs[j - 1]) then Merge(fs, c, i, j - 1) else c
    else if i > 0 then ClassesAt(fs, i - 1, |fs|)
    else Singletons(|fs|)
  }

  ghost function FinalClasses(fs: seq<Finding>): (c: Classes)
    ensures |c| == |fs|
  {
    ClassesAt(fs, |fs|, 0)
  }

  // ---- what every step keeps ----

  ghost predicate OneServer(fs: seq<Finding>, classOf: Classes)
    requires |classOf| == |fs|
  {
    forall x, y :: 0 <= x < |fs| && 0 <= y < |fs| && classOf[x] == classOf[y] ==> fs[x].serverID == fs[y].serverID
  }

  ghost predicate Narrow(fs: seq<Finding>, classOf: Classes)
    requires |classOf| == |fs|
  {
    forall x, y :: 0 <= x < |fs| && 0 <= y < |fs| && classOf[x] == classOf[y] ==>
      fs[y].startedAt - fs[x].startedAt <= WINDOW
  }

  /** A chain of related findings that never leaves its group. */
  ghost predicate Chain(fs: seq<Finding>, classOf: Classes, p: seq<nat>)
    requires |classOf| == |fs|
  {
    && |p| > 0
    && (forall k :: 0 <= k < |p| ==> p[k] < |fs|)
    && (forall k :: 0 <= k < |p| ==> classOf[p[k]] == classOf[p[0]])
    && (forall k :: 0 < k < |p| ==> Adjacent(fs, p[k - 1], p[k]))
  }

  /** Related, in the order the pair loop visits the two. */
  predicate Adjacent(fs: seq<Finding>, x: nat, y: nat)
    requires x < |fs| && y < |fs|
  {
    (x < y && Related(fs[x], fs[y])) || (y < x && Related(fs[y], fs[x]))
  }

  ghost predicate Joined(fs: seq<Finding>, classOf: Classes, x: nat, y: nat)
    requires |classOf| == |fs|
  {
    exists p :: Chain(fs, classOf, p) && p[0] == x && p[|p| - 1] == y
  }

  ghost predicate Connected(fs: seq<Finding>, classOf: Classes)
    requires |classOf| == |fs|
  {
    forall x, y {:trigger Joined(fs, classOf, x, y)} ::
      0 <= x < |fs| && 0 <= y < |fs| && classOf[x] == classOf[y] ==> Joined(fs, classOf, x, y)
  }

  /** Every related pair tried so far is together, or its two groups could not be one. */
  ghost predicate MaximalAt(fs: seq<Finding>, classOf: Classes, i: nat, j: nat)
    requires |classOf| == |fs|
  {
    forall x, y {:trigger Related(fs[x], fs[y])} ::
      0 <= x < y < |fs| && Earlier(x, y, i, j) && Related(fs[x], fs[y]) ==>
      classOf[x] == classOf[y] || TooWide(fs, classOf, classOf[x], classOf[y])
  }

  ghost predicate GroupedAt(fs: seq<Finding>, classOf: Classes, i: nat, j: nat) {
    && Represents(fs, classOf)
    && OneServer(fs, classOf)
    && Narrow(fs, classOf)
    && Connected(fs, classOf)
    && MaximalAt(fs, classOf, i, j)
  }

  lemma AbsorbKeepsShape(fs: seq<Finding>, classOf: Classes, a: nat, b: nat)
    requires a < |fs| && b < |fs| && Represents(fs, classOf)
    requires OneServer(fs, classOf) && Narrow(fs, classOf)
    requires fs[a].serverID == fs[b].serverID && !TooWide(fs, classOf, classOf[a], classOf[b])
    ensures var c := Absorb(classOf, classOf[a], classOf[b]);
            Represents(fs, c) && OneServer(fs, c) && Narrow(fs, c)
  {
  }

  lemma ChainsConcatenate(fs: seq<Finding>, classOf: Classes, p: seq<nat>, q: seq<nat>)
    requires |classOf| == |fs| && Chain(fs, classOf, p) && Chain(fs, classOf, q)
    requires classOf[p[0]] == classOf[q[0]] && Adjacent(fs, p[|p| - 1], q[0])
    ensures Joined(fs, classOf, p[0], q[|q| - 1])
  {
    hide Adjacent;
    var pq := p + q;
    forall k | 0 < k < |pq| ensures Adjacent(fs, pq[k - 1], pq[k]) {
      if k > |p| { assert pq[k - 1] == q[k - 1 - |p|] && pq[k] == q[k - |p|]; }
    }
    assert Chain(fs, classOf, pq);
  }

  lemma ChainKept(fs: seq<Finding>, classOf: Classes, r: nat, s: nat, x: nat, y: nat)
    requires |classOf| == |fs| && Joined(fs, classOf, x, y)
    ensures Joined(fs, Absorb(classOf, r, s), x, y)
  {
    var p :| Chain(fs, classOf, p) && p[0] == x && p[|p| - 1] == y;
    assert Chain(fs, Absorb(classOf, r, s), p);
  }

  lemma AbsorbKeepsConnected(fs: seq<Finding>, classOf: Classes, a: nat, b: nat)
    requires a < |fs| && b < |fs| && Represents(fs, classOf) && Connected(fs, classOf)
    requires Adjacent(fs, a, b)
    ensures Connected(fs, Absorb(classOf, classOf[a], classOf[b]))
  {
    var c := Absorb(classOf, classOf[a], classOf[b]);
    forall x, y | 0 <= x < |fs| && 0 <= y < |fs| && c[x] == c[y] ensures Joined(fs, c, x, y) {
      if classOf[x] == classOf[y] {
        ChainKept(fs, classOf, classOf[a], classOf[b], x, y);
      } else {
        // one of the two is in a's old class, the other in b's
        var u, v := if classOf[x] == classOf[a] then a else b, if classOf[x] == classOf[a] then b else a;
        assert Joined(fs, classOf, x, u) && Joined(fs, classOf, v, y);
        var p :| Chain(fs, classOf, p) && p[0] == x && p[|p| - 1] == u;
        var q :| Chain(fs, classOf, q) && q[0] == v && q[|q| - 1] == y;
        assert Chain(fs, c, p) && Chain(fs, c, q);
        ChainsConcatenate(fs, c, p, q);
      }
    }
  }

  /** A refused merge stays impossible: groups only grow. */
  lemma AbsorbKeepsMaximal(fs: seq<Finding>, classOf: Classes, r: nat, s: nat, i: nat, j: nat)
    requires |classOf| == |fs| && MaximalAt(fs, classOf, i, j)
    ensures MaximalAt(fs, Absorb(classOf, r, s), i, j)
  {
    var c := Absorb(classOf, r, s);
    forall x, y | 0 <= x < y < |fs| && Earlier(x, y, i, j) && Related(fs[x], fs[y])
      ensures c[x] == c[y] || TooWide(fs, c, c[x], c[y])
    {
      if classOf[x] != classOf[y] {
        var u, v :|
          && 0 <= u < |fs| && (classOf[u] == classOf[x] || classOf[u] == classOf[y])
          && 0 <= v < |fs| && (classOf[v] == classOf[x] || classOf[v] == classOf[y])
          && fs[v].startedAt - fs[u].startedAt > WINDOW;
        assert (c[u] == c[x] || c[u] == c[y]) && (c[v] == c[x] || c[v] == c[y]);
      }
    }
  }

  lemma MergeKeepsMaximal(fs: seq<Finding>, classOf: Classes, a: nat, b: nat)
    requires a < b < |fs| && Represents(fs, classOf) && MaximalAt(fs, classOf, a, b)
    ensures MaximalAt(fs, Merge(fs, classOf, a, b), a, b + 1)
  {
    var c := Merge(fs, classOf, a, b);
    if c != classOf {
      AbsorbKeepsMaximal(fs, classOf, classOf[a], classOf[b], a, b);
    }
    forall x, y | 0 <= x < y < |fs| && Earlier(x, y, a, b + 1) && Related(fs[x], fs[y])
      ensures c[x] == c[y] || TooWide(fs, c, c[x], c[y])
    {
      if !(x == a && y == b) { assert Earlier(x, y, a, b); }
    }
  }

  lemma MergeKeepsGrouped(fs: seq<Finding>, classOf: Classes, a: nat, b: nat)
    requires a < b < |fs| && GroupedAt(fs, classOf, a, b) && Related(fs[a], fs[b])
    ensures GroupedAt(fs, Merge(fs, classOf, a, b), a, b + 1)
  {
    var c := Merge(fs, classOf, a, b);
    if c != classOf {
      AbsorbKeepsShape(fs, classOf, a, b);
      AbsorbKeepsConnected(fs, classOf, a, b);
    }
    MergeKeepsMaximal(fs, classOf, a, b);
  }

  lemma SkipKeepsGrouped(fs: seq<Finding>, classOf: Classes, a: nat, b: nat)
    requires a < b < |fs| && GroupedAt(fs, classOf, a, b) && !Related(fs[a], fs[b])
    ensures GroupedAt(fs, classOf, a, b + 1)
  {
  }

  lemma RowKeepsGrouped(fs: seq<Finding>, classOf: Classes, i: nat, j: nat)
    requires 0 < i <= |fs| && j <= i + 1 && GroupedAt(fs, classOf, i - 1, |fs|)
    ensures GroupedAt(fs, classOf, i, j)
  {
  }

  lemma SingletonsGrouped(fs: seq<Finding>, j: nat)
    requires j <= 1
    ensures GroupedAt(fs, Singletons(|fs|), 0, j)
  {
    var c := Singletons(|fs|);
    forall x, y | 0 <= x < |fs| && 0 <= y < |fs| && c[x] == c[y] ensures Joined(fs, c, x, y) {
      assert Chain(fs, c, [x]);
    }
  }

  /** Every step of the double loop keeps the groups single-server, within the window,
      connected and maximal. */
  lemma {:induction false} StepsKeepGrouped(fs: seq<Finding>, i: nat, j: nat)
    requires i <= |fs| && j <= |fs|
    ensures GroupedAt(fs, ClassesAt(fs, i, j), i, j)
    decreases i, j
  {
    hide GroupedAt, Merge, Related;
    if j > i + 1 {
      StepsKeepGrouped(fs, i, j - 1);
      var c := ClassesAt(fs, i, j - 1);
      if Related(fs[i], fs[j - 1]) {
        MergeKeepsGrouped(fs, c, i, j - 1);
        assert ClassesAt(fs, i, j) == Merge(fs, c, i, j - 1);
      } else {
        SkipKeepsGrouped(fs, c, i, j - 1);
        assert ClassesAt(fs, i, j) == c;
      }
    } else if i > 0 {
      StepsKeepGrouped(fs, i - 1, |fs|);
      RowKeepsGrouped(fs, ClassesAt(fs, i - 1, |fs|), i, j);
      assert ClassesAt(fs, i, j) == ClassesAt(fs, i - 1, |fs|);
    } else {
      SingletonsGrouped(fs, j);
      assert ClassesAt(fs, i, j) == Singletons(|fs|);
    }
  }

  // ---- why a group holds together ----

  /** The reasons of all related pairs inside group `r` among the pairs before (i, j). */
  ghost function RationaleAt(fs: seq<Finding>, classOf: Classes, i: nat, j: nat, r: nat): set<string>
    requires |classOf| == |fs|
  {
    set x, y {:trigger Related(fs[x], fs[y])} |
      0 <= x < |fs| && 0 <= y < |fs| && x < y && Earlier(x, y, i, j) && Related(fs[x], fs[y]) &&
      classOf[x] == r && classOf[y] == r
      :: Relationship(fs[x], fs[y])
  }

  ghost function Rationale(fs: seq<Finding>, classOf: Classes, r: nat): set<string>
    requires |classOf| == |fs|
  {
    RationaleAt(fs, classOf, |fs|, 0, r)
  }

  /** Joining two groups loses no reason and adds exactly one: pairs that straddle them were
      refused before, and then this merge would be refused too. */
  lemma MergeRationale(fs: seq<Finding>, classOf: Classes, a: nat, b: nat, r: nat)
    requires a < b < |fs| && GroupedAt(fs, classOf, a, b) && Related(fs[a], fs[b])
    requires classOf[a] == classOf[b] || !TooWide(fs, classOf, classOf[a], classOf[b])
    ensures RationaleAt(fs, Merge(fs, classOf, a, b), a, b + 1, r) ==
            if r == classOf[a] then
              RationaleAt(fs, classOf, a, b, classOf[a]) + RationaleAt(fs, classOf, a, b, classOf[b]) +
                {Relationship(fs[a], fs[b])}
            else if r == classOf[b] then {}
            else RationaleAt(fs, classOf, a, b, r)
  {
    var c := Merge(fs, classOf, a, b);
    forall x, y | 0 <= x < y < |fs| && Earlier(x, y, a, b + 1) && Related(fs[x], fs[y]) && c[x] == r == c[y]
      ensures (x == a && y == b) || (Earlier(x, y, a, b) && classOf[x] == classOf[y])
    {
    }
  }

  lemma RefusedRationale(fs: seq<Finding>, classOf: Classes, a: nat, b: nat, r: nat)
    requires a < b < |fs| == |classOf|
    requires !Related(fs[a], fs[b]) || classOf[a] != classOf[b]
    ensures RationaleAt(fs, classOf, a, b + 1, r) == RationaleAt(fs, classOf, a, b, r)
  {
    hide Relationship, Related;
    forall x, y | 0 <= x < y < |fs| && Earlier(x, y, a, b + 1) && Related(fs[x], fs[y]) && classOf[x] == r == classOf[y]
      ensures Earlier(x, y, a, b)
    {
    }
  }

  // ---- leaving the inner loop early ----

  lemma StartsAscend(fs: seq<Finding>, j: nat, k: nat)
    requires Sorted(fs, Before) && j <= k < |fs|
    ensures fs[j].startedAt <= fs[k].startedAt
  {
    if j < k { assert Before(fs[j], fs[k]); }
  }

  lemma FarPairDoesNothing(fs: seq<Finding>, i: nat, k: nat, r: nat)
    requires i < k < |fs| && fs[k].startedAt - fs[i].startedAt > WINDOW
    ensures ClassesAt(fs, i, k + 1) == ClassesAt(fs, i, k)
    ensures RationaleAt(fs, ClassesAt(fs, i, k), i, k + 1, r) == RationaleAt(fs, ClassesAt(fs, i, k), i, k, r)
  {
    var c := ClassesAt(fs, i, k);
    assert Narrow(fs, c) by { StepsKeepGrouped(fs, i, k); }
    FarApartRefused(fs, c, i, k);
    RefusedRationale(fs, c, i, k, r);
  }

  /** Once a sorted partner starts after the window, no later partner can matter either. */
  lemma {:induction false} BreakLosesNothing(fs: seq<Finding>, i: nat, j: nat, k: nat, r: nat)
    requires Sorted(fs, Before) && i < j <= k <= |fs|
    requires j < |fs| ==> fs[j].startedAt - fs[i].startedAt > WINDOW
    ensures ClassesAt(fs, i, k) == ClassesAt(fs, i, j)
    ensures RationaleAt(fs, ClassesAt(fs, i, j), i, k, r) == RationaleAt(fs, ClassesAt(fs, i, j), i, j, r)
    decreases k
  {
    hide ClassesAt, RationaleAt, StringLe, Before;
    if k > j {
      BreakLosesNothing(fs, i, j, k - 1, r);
      StartsAscend(fs, j, k - 1);
      FarPairDoesNothing(fs, i, k - 1, r);
    }
  }

  lemma FarApartRefused(fs: seq<Finding>, classOf: Classes, a: nat, b: nat)
    requires a < b < |fs| == |classOf| && Narrow(fs, classOf)
    requires fs[b].startedAt - fs[a].startedAt > WINDOW
    ensures classOf[a] != classOf[b] && Merge(fs, classOf, a, b) == classOf
  {
  }

  // ---- incidents ----

  /** Stands for the truncated SHA-256 of the server and the first finding. */
  datatype IncidentID = IncidentID(serverID: string, firstFindingID: string)

  datatype Incident = Incident(
    id: IncidentID,
    serverID: string,
    rationale: seq<string>,
    severity: string,
    status: Status,
    startedAt: Time,
    updatedAt: Time,
    resolvedAt: Option<Time>,
    findings: seq<Finding>)

  /** The members of group `r` among the first `k` findings, in order. */
  function MembersUpTo(fs: seq<Finding>, classOf: Classes, r: nat, k: nat): (g: seq<Finding>)
    requires k <= |fs| == |classOf|
  {
    if k == 0 then []
    else MembersUpTo(fs, classOf, r, k - 1) + if classOf[k - 1] == r then [fs[k - 1]] else []
  }

  function Members(fs: seq<Finding>, classOf: Classes, r: nat): (g: seq<Finding>)
    requires |classOf| == |fs|
  {
    MembersUpTo(fs, classOf, r, |fs|)
  }

  // The folds below take a group one finding at a time, last finding outermost.

  function FirstStart(g: seq<Finding>): Time
    requires g != []
  {
    var last := g[|g| - 1];
    if |g| > 1 && FirstStart(g[..|g| - 1]) <= last.startedAt then FirstStart(g[..|g| - 1]) else last.startedAt
  }

  function LastUpdate(g: seq<Finding>): Time
    requires g != []
  {
    var last := g[|g| - 1];
    if |g| > 1 && LastUpdate(g[..|g| - 1]) >= last.updatedAt then LastUpdate(g[..|g| - 1]) else last.updatedAt
  }

  function WorstSeverity(g: seq<Finding>): string {
    if g == [] then "INFO"
    else
      var last, severity := g[|g| - 1], WorstSeverity(g[..|g| - 1]);
      if SeverityRank(last.severity) > SeverityRank(severity) then last.severity else severity
  }

  function LastResolution(g: seq<Finding>): Option<Time> {
    if g == [] then None
    else
      var last, t := g[|g| - 1], LastResolution(g[..|g| - 1]);
      if last.resolvedAt.Some? && (t.None? || last.resolvedAt.value > t.value) then last.resolvedAt else t
  }

  predicate AllResolved(g: seq<Finding>) {
    forall f :: f in g ==> f.status == Resolved
  }

  function Summarise(g: seq<Finding>, rationale: seq<string>): (incident: Incident)
    requires g != []
  {
    var status := if AllResolved(g) then Resolved else Active;
    Incident(IncidentID(g[0].serverID, g[0].id), g[0].serverID, rationale, WorstSeverity(g), status,
             FirstStart(g), LastUpdate(g), if status == Resolved then LastResolution(g) else None, g)
  }

  /** The representatives of the groups that become incidents. */
  ghost function Roots(fs: seq<Finding>, classOf: Classes): set<nat>
    requires |classOf| == |fs|
  {
    set r: nat | 0 <= r < |fs| && classOf[r] == r && |Members(fs, classOf, r)| >= 2
  }

  ghost function IncidentOf(fs: seq<Finding>, classOf: Classes, r: nat): Incident
    requires |classOf| == |fs| && |Members(fs, classOf, r)| >= 2
  {
    Summarise(Members(fs, classOf, r), InOrder(Rationale(fs, classOf, r)))
  }

  /** The incidents of a sorted list of findings. */
  ghost function IncidentsOf(fs: seq<Finding>): set<Incident> {
    var classOf := FinalClasses(fs);
    set r | r in Roots(fs, classOf) :: IncidentOf(fs, classOf, r)
  }
}
