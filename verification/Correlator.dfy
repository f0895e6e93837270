/** `Correlate` as the program runs it: an in-place sort, a union-find with path compression
    whose roots carry their time span and their reasons, and the loops that collect groups. */
module Correlator {
  import opened Models
  import opened Order
  import opened Correlation

  /** The variables `root` and `union` share. */
  class Forest {
    const findings: seq<Finding>
    var parent: array<nat>
    var earliest: array<Time>
    var latest: array<Time>
    var reasons: map<nat, seq<string>>

    ghost var classOf: Classes
    ghost var depth: seq<nat>

    ghost predicate Valid()
      reads this, parent, earliest, latest
    {
      && parent.Length == earliest.Length == latest.Length == |findings| == |depth|
      && parent as object != earliest && parent as object != latest && earliest != latest
      && Represents(findings, classOf)
      && Acyclic(parent[..], classOf, depth)
      && Spans(findings, classOf, earliest[..], latest[..])
    }

    constructor (findings: seq<Finding>)
      ensures Valid() && this.findings == findings && classOf == Singletons(|findings|) && reasons == map[]
      ensures fresh(parent) && fresh(earliest) && fresh(latest)
    {
      this.findings := findings;
      parent := new nat[|findings|](i => i);
      earliest := new Time[|findings|](i requires 0 <= i < |findings| => findings[i].startedAt);
      latest := new Time[|findings|](i requires 0 <= i < |findings| => findings[i].startedAt);
      reasons := map[];
      classOf := Singletons(|findings|);
      depth := seq(|findings|, _ => 0);
    }

    /** Finds the representative of `i` and hangs every finding passed on the way below it. */
    method Root(i: nat) returns (r: nat)
      requires Valid() && i < |findings|
      modifies parent
      ensures Valid() && r == classOf[i]
      decreases depth[i]
    {
      if parent[i] != i {
        var p := Root(parent[i]);
        CompressKeepsAcyclic(parent[..], classOf, depth, i);
        ghost var compressed := parent[..][i := p];
        parent[i] := p;
        assert parent[..] == compressed;
      }
      r := parent[i];
    }

    method Union(a: nat, b: nat, reason: string)
      requires Valid() && a < |findings| && b < |findings|
      modifies this, parent, earliest, latest
      ensures parent == old(parent) && earliest == old(earliest) && latest == old(latest)
      ensures Valid() && classOf == Merge(findings, old(classOf), a, b)
      ensures if old(classOf[a] != classOf[b] && TooWide(findings, classOf, classOf[a], classOf[b]))
                then reasons == old(reasons)
              else Gained(old(reasons), reasons, old(classOf[a]), old(classOf[b]), reason)
    {
      hide Moved, Gained, TooWide, Acyclic, Spans;
      var ra := Root(a);
      var rb := Root(b);
      if ra != rb {
        var combinedStart, combinedEnd := earliest[ra], latest[ra];
        if earliest[rb] < combinedStart {
          combinedStart := earliest[rb];
        }
        if latest[rb] > combinedEnd {
          combinedEnd := latest[rb];
        }
        WidthOfUnion(findings, classOf, earliest[..], latest[..], ra, rb);
        if combinedEnd - combinedStart > WINDOW {
          return;
        }
        Link(ra, rb, combinedStart, combinedEnd);
      }
      var r := Root(a);
      AppendGains(old(reasons), ra, rb, reason);
      reasons := reasons[r := ListOf(reasons, r) + [reason]];
    }

    /** The accepting half of `union`: `rb` hangs below `ra`, which takes over its span and reasons. */
    method Link(ra: nat, rb: nat, combinedStart: Time, combinedEnd: Time)
      requires Valid() && ra < |findings| && rb < |findings| && ra != rb && classOf[ra] == ra && classOf[rb] == rb
      requires combinedStart == Min(earliest[ra], earliest[rb]) && combinedEnd == Max(latest[ra], latest[rb])
      modifies this, parent, earliest, latest
      ensures parent == old(parent) && earliest == old(earliest) && latest == old(latest)
      ensures Valid() && classOf == Absorb(old(classOf), ra, rb)
      ensures reasons == Moved(old(reasons), ra, rb)
    {
      SpanOfUnion(findings, classOf, earliest[..], latest[..], ra, rb);
      LinkKeepsAcyclic(parent[..], classOf, depth, ra, rb);
      ghost var after := (parent[..][rb := ra], earliest[..][ra := combinedStart], latest[..][ra := combinedEnd]);
      parent[rb] := ra;
      earliest[ra], latest[ra] := combinedStart, combinedEnd;
      assert parent[..] == after.0 && earliest[..] == after.1 && latest[..] == after.2;
      reasons := Moved(reasons, ra, rb);
      depth := Deepen(classOf, depth, rb);
      classOf := Absorb(classOf, ra, rb);
    }
  }

  function ListOf(reasons: map<nat, seq<string>>, r: nat): seq<string> {
    if r in reasons then reasons[r] else []
  }

  /** `rb`'s reasons are appended to `ra`'s and forgotten. */
  function Moved(reasons: map<nat, seq<string>>, ra: nat, rb: nat): map<nat, seq<string>> {
    reasons[ra := ListOf(reasons, ra) + ListOf(reasons, rb)] - {rb}
  }

  ghost predicate Gained(before: map<nat, seq<string>>, after: map<nat, seq<string>>, ra: nat, rb: nat, reason: string)
  {
    forall r {:trigger ListOf(after, r)} :: Elements(ListOf(after, r)) ==
      if r == ra then Elements(ListOf(before, ra)) + Elements(ListOf(before, rb)) + {reason}
      else if r == rb then {}
      else Elements(ListOf(before, r))
  }

  lemma AppendGains(before: map<nat, seq<string>>, ra: nat, rb: nat, reason: string)
    ensures var moved := if ra == rb then before else Moved(before, ra, rb);
            Gained(before, moved[ra := ListOf(moved, ra) + [reason]], ra, rb, reason)
  {
  }

  /** Parents lead, in falling depth, to the representative, which is its own parent. */
  ghost predicate Acyclic(parent: seq<nat>, classOf: Classes, depth: seq<nat>)
    requires |parent| == |classOf| == |depth|
  {
    forall x {:trigger parent[x]} :: 0 <= x < |parent| ==>
      && parent[x] < |parent| && classOf[parent[x]] == classOf[x]
      && (parent[x] == x <==> classOf[x] == x) && (classOf[x] == x <==> depth[x] == 0)
      && (parent[x] != x ==> depth[parent[x]] < depth[x])
  }

  lemma CompressKeepsAcyclic(parent: seq<nat>, classOf: Classes, depth: seq<nat>, i: nat)
    requires |parent| == |classOf| == |depth| && Acyclic(parent, classOf, depth)
    requires forall x :: 0 <= x < |classOf| ==> classOf[x] < |classOf| && classOf[classOf[x]] == classOf[x]
    requires i < |parent|
    ensures Acyclic(parent[i := classOf[i]], classOf, depth)
  {
    assert parent[i] < |parent| && parent[classOf[i]] == classOf[i];
  }

  function Deepen(classOf: Classes, depth: seq<nat>, s: nat): (d: seq<nat>)
    requires |classOf| == |depth|
    ensures |d| == |depth|
  {
    seq(|depth|, x requires 0 <= x < |depth| => if classOf[x] == s then depth[x] + 1 else depth[x])
  }

  lemma LinkKeepsAcyclic(parent: seq<nat>, classOf: Classes, depth: seq<nat>, r: nat, s: nat)
    requires |parent| == |classOf| == |depth| && Acyclic(parent, classOf, depth)
    requires forall x :: 0 <= x < |classOf| ==> classOf[x] < |classOf| && classOf[classOf[x]] == classOf[x]
    requires r < |parent| && s < |parent| && r != s && classOf[r] == r && classOf[s] == s
    ensures Acyclic(parent[s := r], Absorb(classOf, r, s), Deepen(classOf, depth, s))
  {
    assert parent[r] == r && parent[s] == s;
    forall x | 0 <= x < |parent| ensures parent[x] < |parent| && classOf[parent[x]] == classOf[x] { }
  }

  /** Each root carries the exact first and last start of its group. */
  ghost predicate Spans(fs: seq<Finding>, classOf: Classes, earliest: seq<Time>, latest: seq<Time>)
    requires |fs| == |classOf| == |earliest| == |latest|
  {
    forall r {:trigger earliest[r]} {:trigger latest[r]} :: 0 <= r < |fs| && classOf[r] == r ==>
      && (forall x :: 0 <= x < |fs| && classOf[x] == r ==> earliest[r] <= fs[x].startedAt <= latest[r])
      && (exists x :: 0 <= x < |fs| && classOf[x] == r && fs[x].startedAt == earliest[r])
      && (exists x :: 0 <= x < |fs| && classOf[x] == r && fs[x].startedAt == latest[r])
  }

  function Min(a: int, b: int): int { if b < a then b else a }
  function Max(a: int, b: int): int { if b > a then b else a }

  lemma WidthOfUnion(fs: seq<Finding>, classOf: Classes, earliest: seq<Time>, latest: seq<Time>, r: nat, s: nat)
    requires |fs| == |earliest| == |latest| && Represents(fs, classOf) && Spans(fs, classOf, earliest, latest)
    requires r < |fs| && s < |fs| && classOf[r] == r && classOf[s] == s
    ensures TooWide(fs, classOf, r, s) <==> Max(latest[r], latest[s]) - Min(earliest[r], earliest[s]) > WINDOW
  {
    var first, last := if earliest[s] < earliest[r] then s else r, if latest[s] > latest[r] then s else r;
    var x :| 0 <= x < |fs| && classOf[x] == first && fs[x].startedAt == earliest[first];
    var y :| 0 <= y < |fs| && classOf[y] == last && fs[y].startedAt == latest[last];
  }

  lemma SpanOfUnion(fs: seq<Finding>, classOf: Classes, earliest: seq<Time>, latest: seq<Time>, r: nat, s: nat)
    requires |fs| == |earliest| == |latest| && Represents(fs, classOf) && Spans(fs, classOf, earliest, latest)
    requires r < |fs| && s < |fs| && r != s && classOf[r] == r && classOf[s] == s
    ensures Spans(fs, Absorb(classOf, r, s), earliest[r := Min(earliest[r], earliest[s])],
              latest[r := Max(latest[r], latest[s])])
  {
    var c := Absorb(classOf, r, s);
    var e, l := earliest[r := Min(earliest[r], earliest[s])], latest[r := Max(latest[r], latest[s])];
    forall q | 0 <= q < |fs| && c[q] == q
      ensures exists x :: 0 <= x < |fs| && c[x] == q && fs[x].startedAt == e[q]
      ensures exists x :: 0 <= x < |fs| && c[x] == q && fs[x].startedAt == l[q]
    {
      var first := if q == r && earliest[s] < earliest[r] then s else q;
      var last := if q == r && latest[s] > latest[r] then s else q;
      var x :| 0 <= x < |fs| && classOf[x] == first && fs[x].startedAt == earliest[first];
      var y :| 0 <= y < |fs| && classOf[y] == last && fs[y].startedAt == latest[last];
      assert c[x] == q && c[y] == q;
    }
  }

  // ---- the pair loop ----

  /** Every root's list holds exactly the reasons found inside its group so far. */
  ghost predicate Exact(fs: seq<Finding>, classOf: Classes, i: nat, j: nat, reasons: map<nat, seq<string>>)
    requires |classOf| == |fs|
  {
    forall r: nat {:trigger ListOf(reasons, r)} :: Elements(ListOf(reasons, r)) == RationaleAt(fs, classOf, i, j, r)
  }

  lemma ExactAfterPair(fs: seq<Finding>, classOf: Classes, i: nat, j: nat,
                       before: map<nat, seq<string>>, after: map<nat, seq<string>>)
    requires i < j < |fs| && GroupedAt(fs, classOf, i, j) && Exact(fs, classOf, i, j, before) && Related(fs[i], fs[j])
    requires if classOf[i] != classOf[j] && TooWide(fs, classOf, classOf[i], classOf[j]) then after == before
             else Gained(before, after, classOf[i], classOf[j], Relationship(fs[i], fs[j]))
    ensures Exact(fs, Merge(fs, classOf, i, j), i, j + 1, after)
  {
    forall r: nat ensures Elements(ListOf(after, r)) == RationaleAt(fs, Merge(fs, classOf, i, j), i, j + 1, r) {
      if classOf[i] != classOf[j] && TooWide(fs, classOf, classOf[i], classOf[j]) {
        RefusedRationale(fs, classOf, i, j, r);
      } else {
        MergeRationale(fs, classOf, i, j, r);
        assert Elements(ListOf(before, classOf[i])) == RationaleAt(fs, classOf, i, j, classOf[i]);
        assert Elements(ListOf(before, classOf[j])) == RationaleAt(fs, classOf, i, j, classOf[j]);
        assert Elements(ListOf(before, r)) == RationaleAt(fs, classOf, i, j, r);
      }
    }
  }

  lemma ExactAfterUnrelated(fs: seq<Finding>, classOf: Classes, i: nat, j: nat, reasons: map<nat, seq<string>>)
    requires i < j < |fs| == |classOf| && Exact(fs, classOf, i, j, reasons) && !Related(fs[i], fs[j])
    ensures Exact(fs, classOf, i, j + 1, reasons)
  {
    forall r: nat ensures Elements(ListOf(reasons, r)) == RationaleAt(fs, classOf, i, j + 1, r) {
      RefusedRationale(fs, classOf, i, j, r);
    }
  }

  lemma ExactAfterBreak(fs: seq<Finding>, i: nat, j: nat, reasons: map<nat, seq<string>>)
    requires Sorted(fs, Before) && i < j <= |fs|
    requires j < |fs| ==> fs[j].startedAt - fs[i].startedAt > WINDOW
    requires Exact(fs, ClassesAt(fs, i, j), i, j, reasons)
    ensures ClassesAt(fs, i + 1, 0) == ClassesAt(fs, i, j)
    ensures Exact(fs, ClassesAt(fs, i, j), i + 1, 0, reasons)
  {
    var c := ClassesAt(fs, i, j);
    BreakLosesNothing(fs, i, j, |fs|, 0);
    forall r: nat ensures Elements(ListOf(reasons, r)) == RationaleAt(fs, c, i + 1, 0, r) {
      BreakLosesNothing(fs, i, j, |fs|, r);
      SamePairs(fs, c, i, |fs|, i + 1, 0, r);
    }
  }

  lemma SamePairs(fs: seq<Finding>, classOf: Classes, i: nat, j: nat, k: nat, l: nat, r: nat)
    requires |classOf| == |fs|
    requires forall x: nat, y: nat :: x < y < |fs| ==> (Earlier(x, y, i, j) <==> Earlier(x, y, k, l))
    ensures RationaleAt(fs, classOf, i, j, r) == RationaleAt(fs, classOf, k, l, r)
  {
  }

  ghost predicate At(forest: Forest, i: nat, j: nat)
    reads forest, forest.parent, forest.earliest, forest.latest
  {
    && forest.Valid() && i <= |forest.findings| && j <= |forest.findings|
    && forest.classOf == ClassesAt(forest.findings, i, j)
    && Exact(forest.findings, forest.classOf, i, j, forest.reasons)
  }

  /** The loop body: one pair inside the window. */
  method TryPair(forest: Forest, i: nat, j: nat)
    requires At(forest, i, j) && i < j < |forest.findings|
    modifies forest, forest.parent, forest.earliest, forest.latest
    ensures forest.parent == old(forest.parent) && forest.earliest == old(forest.earliest) &&
              forest.latest == old(forest.latest)
    ensures At(forest, i, j + 1)
  {
    var a, b := forest.findings[i], forest.findings[j];
    ghost var classOf, before := forest.classOf, forest.reasons;
    var reason := Relationship(a, b);
    if a.serverID == b.serverID && reason != "" {
      forest.Union(i, j, reason);
      assert GroupedAt(forest.findings, classOf, i, j) by { StepsKeepGrouped(forest.findings, i, j); }
      ExactAfterPair(forest.findings, classOf, i, j, before, forest.reasons);
    } else {
      ExactAfterUnrelated(forest.findings, classOf, i, j, forest.reasons);
    }
  }

  /** The inner loop, with its early exit. */
  method MergeRow(forest: Forest, i: nat)
    requires At(forest, i, 0) && i < |forest.findings| && Sorted(forest.findings, Before)
    modifies forest, forest.parent, forest.earliest, forest.latest
    ensures forest.parent == old(forest.parent) && forest.earliest == old(forest.earliest) &&
              forest.latest == old(forest.latest)
    ensures At(forest, i + 1, 0)
  {
    hide Exact, ClassesAt, RationaleAt, Represents, Acyclic, Spans, Sorted;
    var n := |forest.findings|;
    var j := i + 1;
    RowStarts(forest.findings, forest.classOf, i, forest.reasons);
    while j < n
      invariant i < j <= n && At(forest, i, j)
      invariant forest.parent == old(forest.parent) && forest.earliest == old(forest.earliest) &&
                forest.latest == old(forest.latest)
    {
      if forest.findings[j].startedAt - forest.findings[i].startedAt > WINDOW {
        break;
      }
      TryPair(forest, i, j);
      j := j + 1;
    }
    ExactAfterBreak(forest.findings, i, j, forest.reasons);
  }

  lemma RowStarts(fs: seq<Finding>, classOf: Classes, i: nat, reasons: map<nat, seq<string>>)
    requires i < |fs| == |classOf| && Exact(fs, classOf, i, 0, reasons)
    ensures Exact(fs, classOf, i, i + 1, reasons) && ClassesAt(fs, i, i + 1) == ClassesAt(fs, i, 0)
  {
    forall r: nat ensures Elements(ListOf(reasons, r)) == RationaleAt(fs, classOf, i, i + 1, r) {
      SamePairs(fs, classOf, i, 0, i, i + 1, r);
    }
  }

  method MergeRelated(findings: seq<Finding>) returns (forest: Forest)
    requires Sorted(findings, Before)
    ensures fresh(forest) && fresh(forest.parent)
    ensures At(forest, |findings|, 0) && forest.findings == findings
  {
    forest := new Forest(findings);
    for i := 0 to |findings|
      invariant fresh(forest) && fresh(forest.parent) && fresh(forest.earliest) && fresh(forest.latest)
      invariant At(forest, i, 0) && forest.findings == findings
    {
      MergeRow(forest, i);
    }
  }
}
