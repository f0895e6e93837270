/** The lifecycle of findings: what one collection cycle does to the `findings` table, and the
    language of transitions every finding follows over all runs. */
module FindingLifecycle {
  import opened Models
  import opened Order

  datatype Transition = New | Reopened | SeverityIncreased | Closed

  /** A transition, with the finding as it is reported to the notification queue. */
  datatype Change = Change(fingerprint: string, kind: Transition, finding: Finding)

  /** The table `findings`, by its unique fingerprint. */
  type Table = map<string, Finding>

  predicate Open(t: Table, fp: string) {
    fp in t && t[fp].status != Resolved
  }

  // ---- one upserted finding ----

  function Row(t: Table, f: Finding): Finding {
    if f.fingerprint in t then
      t[f.fingerprint].(severity := f.severity, body := f.body,
                        status := if t[f.fingerprint].status == Acknowledged then Acknowledged else Active,
                        updatedAt := f.updatedAt, resolvedAt := None)
    else f.(status := Active, resolvedAt := None)
  }

  function TransitionOf(t: Table, f: Finding): Option<Transition> {
    if f.fingerprint !in t then Some(New)
    else if t[f.fingerprint].status == Resolved then Some(Reopened)
    else if SeverityRank(f.severity) > SeverityRank(t[f.fingerprint].severity) then Some(SeverityIncreased)
    else None
  }

  function ChangesOf(t: Table, f: Finding): seq<Change> {
    match TransitionOf(t, f)
    case None => []
    case Some(kind) => [Change(f.fingerprint, kind, f)]
  }

  function Upserted(t: Table, fs: seq<Finding>): Table {
    if fs == [] then t
    else
      var before := Upserted(t, fs[..|fs| - 1]);
      before[fs[|fs| - 1].fingerprint := Row(before, fs[|fs| - 1])]
  }

  function UpsertChanges(t: Table, fs: seq<Finding>): seq<Change> {
    if fs == [] then []
    else UpsertChanges(t, fs[..|fs| - 1]) + ChangesOf(Upserted(t, fs[..|fs| - 1]), fs[|fs| - 1])
  }

  function Fingerprints(fs: seq<Finding>): set<string> {
    set f | f in fs :: f.fingerprint
  }

  // ---- the findings no longer seen ----

  function Stale(t: Table, serverID: string, seen: set<string>): set<string> {
    set fp | fp in t && t[fp].serverID == serverID && t[fp].status != Resolved && fp !in seen
  }

  function ResolvedAll(t: Table, fps: set<string>, now: Time): Table {
    map fp | fp in t :: if fp in fps
      then t[fp].(status := Resolved, resolvedAt := Some(now), updatedAt := now) else t[fp]
  }

  /** The resolved finding is reported without its resolution time. */
  function ResolvedChange(t: Table, fp: string, now: Time): Change
    requires fp in t
  {
    Change(fp, Closed, t[fp].(status := Resolved, updatedAt := now, resolvedAt := None))
  }

  /** The table after one committed `UpsertFindings`. */
  function Reconciled(t: Table, serverID: string, fs: seq<Finding>, now: Time): Table {
    var upserted := Upserted(t, fs);
    ResolvedAll(upserted, Stale(upserted, serverID, Fingerprints(fs)), now)
  }

  /** The transitions it reports: those of the input in order, then one per stale finding, in
      whatever order the query returned them. */
  ghost predicate Reports(t: Table, serverID: string, fs: seq<Finding>, now: Time, changes: seq<Change>) {
    var upserted := Upserted(t, fs);
    exists order: seq<string> ::
      && Elements(order) == Stale(upserted, serverID, Fingerprints(fs))
      && (forall i, j :: 0 <= i < j < |order| ==> order[i] != order[j])
      && (forall fp :: fp in order ==> fp in upserted)
      && changes == UpsertChanges(t, fs) + ResolvedChanges(upserted, order, now)
  }

  function ResolvedChanges(t: Table, order: seq<string>, now: Time): seq<Change>
    requires forall fp :: fp in order ==> fp in t
  {
    seq(|order|, i requires 0 <= i < |order| => ResolvedChange(t, order[i], now))
  }

  /** `SetFindingStatus`: only an open finding can be acknowledged or made active again. */
  function WithStatus(t: Table, id: string, status: Status, now: Time): Table {
    map fp | fp in t :: if t[fp].id == id && t[fp].status != Resolved
      then t[fp].(status := status, updatedAt := now) else t[fp]
  }

  // ---- what one call guarantees ----

  lemma {:induction false} UpsertedKeys(t: Table, fs: seq<Finding>, fp: string)
    ensures fp in Upserted(t, fs) <==> fp in t || fp in Fingerprints(fs)
    ensures fp in Fingerprints(fs) ==> Open(Upserted(t, fs), fp)
    ensures fp !in Fingerprints(fs) && fp in t ==> Upserted(t, fs)[fp] == t[fp]
    ensures fp in Fingerprints(fs) && fp in t && t[fp].status == Acknowledged ==>
              Upserted(t, fs)[fp].status == Acknowledged
  {
    if fs != [] {
      var front, last := fs[..|fs| - 1], fs[|fs| - 1];
      UpsertedKeys(t, front, fp);
      UpsertedKeys(t, front, last.fingerprint);
      assert fs == front + [last];
      assert Fingerprints(fs) == Fingerprints(front) + {last.fingerprint};
    }
  }

  /** The server whose row a fingerprint names once the input has been upserted. */
  function OwnerAfter(t: Table, fs: seq<Finding>, fp: string): string
    requires fp in t || fp in Fingerprints(fs)
  {
    if fp in t then t[fp].serverID
    else FirstWith(fs, fp).serverID
  }

  /** The first finding of the input with a fingerprint: the one that is inserted. */
  function FirstWith(fs: seq<Finding>, fp: string): Finding
    requires fp in Fingerprints(fs)
  {
    var front, last := fs[..|fs| - 1], fs[|fs| - 1];
    assert fs == front + [last];
    if fp in Fingerprints(front) then FirstWith(front, fp) else last
  }

  lemma {:induction false} OwnerIsKept(t: Table, fs: seq<Finding>, fp: string)
    requires fp in t || fp in Fingerprints(fs)
    ensures fp in Upserted(t, fs) && Upserted(t, fs)[fp].serverID == OwnerAfter(t, fs, fp)
  {
    if fs != [] {
      var front, last := fs[..|fs| - 1], fs[|fs| - 1];
      UpsertedKeys(t, front, fp);
      assert fs == front + [last];
      if fp in t || fp in Fingerprints(front) { OwnerIsKept(t, front, fp); }
    }
  }

  lemma ReconciledAt(t: Table, serverID: string, fs: seq<Finding>, now: Time, fp: string)
    ensures var r := Reconciled(t, serverID, fs, now);
            && (fp in r <==> fp in t || fp in Fingerprints(fs))
            && (fp in r ==> r[fp].serverID == OwnerAfter(t, fs, fp))
            && (fp in Fingerprints(fs) ==> r[fp] == Upserted(t, fs)[fp] && Open(r, fp))
            && (fp !in Fingerprints(fs) && fp in t && t[fp].serverID != serverID ==> r[fp] == t[fp])
            && (fp !in Fingerprints(fs) && fp in t && t[fp].serverID == serverID ==> r[fp].status == Resolved)
  {
    UpsertedKeys(t, fs, fp);
    if fp in t || fp in Fingerprints(fs) { OwnerIsKept(t, fs, fp); }
  }

  lemma {:induction false} UpsertedRow(t: Table, fs: seq<Finding>, fp: string, i: nat, k: nat)
    requires k <= i < |fs| && fs[i].fingerprint == fp == fs[k].fingerprint
    requires forall j :: 0 <= j < k ==> fs[j].fingerprint != fp
    requires forall j :: i < j < |fs| ==> fs[j].fingerprint != fp
    ensures fp in Upserted(t, fs)
    ensures Upserted(t, fs)[fp] ==
            (if fp in t then t[fp] else fs[k]).(
              severity := fs[i].severity, body := fs[i].body, updatedAt := fs[i].updatedAt, resolvedAt := None,
              status := if fp in t && t[fp].status == Acknowledged then Acknowledged else Active)
  {
    var front := fs[..|fs| - 1];
    if i < |front| {
      UpsertedRow(t, front, fp, i, k);
    } else if k < i {
      var h := LastBefore(fs, fp, i, k);
      UpsertedRow(t, front, fp, h, k);
    } else {
      UpsertedKeys(t, front, fp);
    }
  }

  /** The last finding with the fingerprint before position `i`. */
  lemma {:induction false} LastBefore(fs: seq<Finding>, fp: string, i: nat, k: nat) returns (h: nat)
    requires k < i < |fs| && fs[k].fingerprint == fp
    ensures k <= h < i && fs[h].fingerprint == fp && forall j :: h < j < i ==> fs[j].fingerprint != fp
  {
    if fs[i - 1].fingerprint == fp {
      h := i - 1;
    } else {
      h := LastBefore(fs, fp, i - 1, k);
    }
  }

  /** The row of an input finding after a call: identity and start are those of the row it had, or of
      the input that stored it first; severity, text and time are those of the last input. */
  lemma UpsertedRowMeaning(t: Table, serverID: string, fs: seq<Finding>, now: Time, fp: string, i: nat, k: nat)
    requires k <= i < |fs| && fs[i].fingerprint == fp == fs[k].fingerprint
    requires forall j :: 0 <= j < k ==> fs[j].fingerprint != fp
    requires forall j :: i < j < |fs| ==> fs[j].fingerprint != fp
    ensures fp in Reconciled(t, serverID, fs, now)
    ensures Reconciled(t, serverID, fs, now)[fp] ==
            (if fp in t then t[fp] else fs[k]).(
              severity := fs[i].severity, body := fs[i].body, updatedAt := fs[i].updatedAt, resolvedAt := None,
              status := if fp in t && t[fp].status == Acknowledged then Acknowledged else Active)
  {
    UpsertedRow(t, fs, fp, i, k);
    ReconciledAt(t, serverID, fs, now, fp);
    assert fs[i] in fs;
  }

  /** A finding that is not in the input: an open one of the server is resolved now and otherwise as
      it was, and every other one is as it was. */
  lemma UnseenRowMeaning(t: Table, serverID: string, fs: seq<Finding>, now: Time, fp: string)
    requires fp in t && forall f :: f in fs ==> f.fingerprint != fp
    ensures fp in Reconciled(t, serverID, fs, now)
    ensures Reconciled(t, serverID, fs, now)[fp] ==
            if t[fp].serverID == serverID && t[fp].status != Resolved
            then t[fp].(status := Resolved, resolvedAt := Some(now), updatedAt := now) else t[fp]
  {
    UpsertedKeys(t, fs, fp);
  }

  lemma {:induction false} NotUpsertedYet(t: Table, fs: seq<Finding>, fp: string)
    requires forall f :: f in fs ==> f.fingerprint != fp
    ensures fp in Upserted(t, fs) <==> fp in t
    ensures fp in t ==> Upserted(t, fs)[fp] == t[fp]
  {
    UpsertedKeys(t, fs, fp);
  }

  /** What a call reports of the first input finding with a fingerprint: new when it is not stored,
      reopened when it was resolved, a severity increase when the rank has risen, otherwise nothing;
      and it reports the finding of the input. */
  lemma ReportedTransition(t: Table, fs: seq<Finding>, i: nat)
    requires i < |fs| && forall j :: 0 <= j < i ==> fs[j].fingerprint != fs[i].fingerprint
    ensures var f := fs[i];
            UpsertChanges(t, fs[..i + 1]) == UpsertChanges(t, fs[..i]) +
              if f.fingerprint !in t then [Change(f.fingerprint, New, f)]
              else if t[f.fingerprint].status == Resolved then [Change(f.fingerprint, Reopened, f)]
              else if SeverityRank(t[f.fingerprint].severity) < SeverityRank(f.severity)
              then [Change(f.fingerprint, SeverityIncreased, f)]
              else []
  {
    assert fs[..i + 1][..i] == fs[..i];
    NotUpsertedYet(t, fs[..i], fs[i].fingerprint);
    hide Upserted, SeverityRank;
  }

  /** The resolutions a call reports: one for every open finding of the server that is not in the
      input, as it was but resolved now. */
  lemma ReportedResolutions(t: Table, serverID: string, fs: seq<Finding>, now: Time, changes: seq<Change>, fp: string)
    requires Reports(t, serverID, fs, now, changes) && fp in t && forall f :: f in fs ==> f.fingerprint != fp
    ensures var closed := Change(fp, Closed, t[fp].(status := Resolved, updatedAt := now, resolvedAt := None));
            && (closed in changes <== t[fp].serverID == serverID && t[fp].status != Resolved)
            && forall x :: x in changes && x.fingerprint == fp ==>
                 x == closed && t[fp].serverID == serverID && t[fp].status != Resolved
  {
    NotUpsertedYet(t, fs, fp);
    var upserted := Upserted(t, fs);
    var order: seq<string> :|
      && Elements(order) == Stale(upserted, serverID, Fingerprints(fs))
      && (forall i, j :: 0 <= i < j < |order| ==> order[i] != order[j])
      && (forall fp :: fp in order ==> fp in upserted)
      && changes == UpsertChanges(t, fs) + ResolvedChanges(upserted, order, now);
    forall x | x in UpsertChanges(t, fs) ensures x.fingerprint != fp { ChangesNameInput(t, fs, x); }
    if fp in Elements(order) {
      var i :| 0 <= i < |order| && order[i] == fp;
      assert ResolvedChanges(upserted, order, now)[i] in changes;
    }
    hide Upserted, UpsertChanges;
  }

  lemma {:induction false} ChangesNameInput(t: Table, fs: seq<Finding>, x: Change)
    requires x in UpsertChanges(t, fs)
    ensures x.finding in fs && x.fingerprint == x.finding.fingerprint
  {
    if x !in ChangesOf(Upserted(t, fs[..|fs| - 1]), fs[|fs| - 1]) { ChangesNameInput(t, fs[..|fs| - 1], x); }
  }

  /** The fingerprints of a server's open findings. */
  function OpenOf(t: Table, serverID: string): set<string> {
    set fp | fp in t && t[fp].serverID == serverID && t[fp].status != Resolved
  }

  /** After a call the server's open findings are the input's, exactly when every fingerprint of
      the input names a row of that server; a finding of another server that the input does not
      name is untouched, and an acknowledged one that persists stays acknowledged. */
  lemma OpenFindingsAfter(t: Table, serverID: string, fs: seq<Finding>, now: Time)
    ensures var r := Reconciled(t, serverID, fs, now);
            && (OpenOf(r, serverID) == Fingerprints(fs) <==> forall fp :: fp in Fingerprints(fs) ==>
                  OwnerAfter(t, fs, fp) == serverID)
            && OpenOf(r, serverID) <= Fingerprints(fs)
            && (forall fp :: fp in t && t[fp].serverID != serverID && fp !in Fingerprints(fs) ==>
                  fp in r && r[fp] == t[fp])
            && (forall fp :: fp in t && t[fp].status == Acknowledged && fp in Fingerprints(fs) ==>
                  fp in r && r[fp].status == Acknowledged)
  {
    var r := Reconciled(t, serverID, fs, now);
    hide Reconciled, Upserted, OwnerAfter, Fingerprints;
    forall fp: string
      ensures fp in OpenOf(r, serverID) <==> fp in Fingerprints(fs) && OwnerAfter(t, fs, fp) == serverID
    {
      ReconciledAt(t, serverID, fs, now, fp);
    }
    forall fp | fp in t ensures fp in r
      ensures t[fp].serverID != serverID && fp !in Fingerprints(fs) ==> r[fp] == t[fp]
      ensures t[fp].status == Acknowledged && fp in Fingerprints(fs) ==> r[fp].status == Acknowledged
    {
      ReconciledAt(t, serverID, fs, now, fp);
      UpsertedKeys(t, fs, fp);
    }
  }

  /** An input that names a row of another server: the server's open set is then not the input. */
  lemma ForeignFingerprintStaysForeign(mine: string, other: string, f: Finding, now: Time)
    requires mine != other && f.serverID == other && f.status == Active
    ensures OpenOf(Reconciled(map[f.fingerprint := f], mine, [f], now), mine) == {} != Fingerprints([f])
  {
    OpenFindingsAfter(map[f.fingerprint := f], mine, [f], now);
    assert f.fingerprint in Fingerprints([f]);
    forall fp | fp in Fingerprints([f]) ensures OwnerAfter(map[f.fingerprint := f], [f], fp) == other { }
    ReconciledAt(map[f.fingerprint := f], mine, [f], now, f.fingerprint);
  }

  ghost predicate DistinctIDs(t: Table) {
    forall fp, other :: fp in t && other in t && t[fp].id == t[other].id ==> fp == other
  }

  lemma LastStatusCounts(t: Table, id: string, status: Status, now: Time, again: Status, later: Time)
    requires status != Resolved
    ensures WithStatus(WithStatus(t, id, status, now), id, again, later) == WithStatus(t, id, again, later)
  {
  }

  lemma WithStatusAt(t: Table, id: string, status: Status, now: Time)
    requires status != Resolved
    ensures var t' := WithStatus(t, id, status, now);
            && t'.Keys == t.Keys
            && forall fp :: fp in t ==>
                 && t'[fp].serverID == t[fp].serverID && (t'[fp].status == Resolved <==> t[fp].status == Resolved)
                 && (t'[fp] != t[fp] ==> t[fp].id == id && Open(t, fp) && t'[fp].status == status)
  {
  }

  /** Acknowledging a finding or making it active again opens and closes nothing, changes one row
      at most, and can be undone: of several changes in a row the last one is what counts. */
  lemma StatusChangeMeaning(t: Table, id: string, status: Status, now: Time, again: Status, later: Time)
    requires DistinctIDs(t) && status != Resolved && again != Resolved
    ensures var t' := WithStatus(t, id, status, now);
            && t'.Keys == t.Keys
            && (forall serverID :: OpenOf(t', serverID) == OpenOf(t, serverID))
            && (forall fp, other :: fp in t && other in t && t'[fp] != t[fp] && t'[other] != t[other] ==> fp == other)
            && (forall fp :: fp in t && t'[fp] != t[fp] ==> t[fp].id == id && Open(t, fp) && t'[fp].status == status)
            && WithStatus(t', id, again, later) == WithStatus(t, id, again, later)
  {
    LastStatusCounts(t, id, status, now, again, later);
    hide WithStatus;
    WithStatusAt(t, id, status, now);
  }

  // ---- repeating a call ----

  lemma {:induction false} SeverityIsLast(a: Table, b: Table, fs: seq<Finding>, fp: string)
    requires fp in Fingerprints(fs)
    ensures fp in Upserted(a, fs) && fp in Upserted(b, fs) &&
              Upserted(a, fs)[fp].severity == Upserted(b, fs)[fp].severity
  {
    var front, last := fs[..|fs| - 1], fs[|fs| - 1];
    assert fs == front + [last];
    if last.fingerprint != fp { SeverityIsLast(a, b, front, fp); }
  }

  /** Without a transition, severities along the input never rise. */
  lemma {:induction false} QuietMeansFalling(t: Table, fs: seq<Finding>, f: Finding)
    requires UpsertChanges(t, fs) == [] && f in fs
    ensures f.fingerprint in t && f.fingerprint in Upserted(t, fs)
    ensures SeverityRank(Upserted(t,
              fs)[f.fingerprint].severity) <= SeverityRank(f.severity) <= SeverityRank(t[f.fingerprint].severity)
  {
    var front, last := fs[..|fs| - 1], fs[|fs| - 1];
    assert fs == front + [last];
    var before := Upserted(t, front);
    assert TransitionOf(before, last).None?;
    if f in front {
      QuietMeansFalling(t, front, f);
    } else if last.fingerprint in Fingerprints(front) {
      var g :| g in front && g.fingerprint == last.fingerprint;
      QuietMeansFalling(t, front, g);
    } else {
      UpsertedKeys(t, front, last.fingerprint);
    }
  }

  ghost predicate SameRanks(fs: seq<Finding>) {
    forall f, g :: f in fs && g in fs && f.fingerprint == g.fingerprint ==>
      SeverityRank(f.severity) == SeverityRank(g.severity)
  }

  lemma {:induction false} RankOfUpserted(t: Table, fs: seq<Finding>, f: Finding)
    requires f in fs && SameRanks(fs)
    ensures f.fingerprint in Upserted(t, fs) &&
              SeverityRank(Upserted(t, fs)[f.fingerprint].severity) == SeverityRank(f.severity)
  {
    var front, last := fs[..|fs| - 1], fs[|fs| - 1];
    assert fs == front + [last];
    if last.fingerprint != f.fingerprint {
      assert f in front;
      RankOfUpserted(t, front, f);
    }
  }

  lemma RankIsKept(t: Table, fs: seq<Finding>, k: nat)
    requires SameRanks(fs) && k < |fs|
    requires Open(t, fs[k].fingerprint) && SeverityRank(t[fs[k].fingerprint].severity) == SeverityRank(fs[k].severity)
    ensures TransitionOf(Upserted(t, fs[..k]), fs[k]) == None
  {
    hide Upserted, SeverityRank;
    var front, f := fs[..k], fs[k];
    UpsertedKeys(t, front, f.fingerprint);
    if f.fingerprint in Fingerprints(front) {
      var g :| g in front && g.fingerprint == f.fingerprint;
      RankOfUpserted(t, front, g);
    }
  }

  lemma {:induction false} SameRanksAreQuiet(t: Table, fs: seq<Finding>, k: nat)
    requires SameRanks(fs) && k <= |fs|
    requires forall f :: f in fs ==>
              Open(t, f.fingerprint) && SeverityRank(t[f.fingerprint].severity) == SeverityRank(f.severity)
    ensures UpsertChanges(t, fs[..k]) == []
  {
    hide Upserted, SeverityRank, SameRanks, TransitionOf;
    if k > 0 {
      SameRanksAreQuiet(t, fs, k - 1);
      RankIsKept(t, fs, k - 1);
      assert fs[..k][..k - 1] == fs[..k - 1];
    }
  }

  /** Calling again with the same input reports nothing exactly when findings that share a
      fingerprint share a severity rank; distinct fingerprints are the special case. */
  lemma SecondCallIsQuiet(t: Table, serverID: string, fs: seq<Finding>, now: Time)
    ensures var r := Reconciled(t, serverID, fs, now);
            && Stale(Upserted(r, fs), serverID, Fingerprints(fs)) == {}
            && (UpsertChanges(r, fs) == [] <==> SameRanks(fs))
  {
    var r := Reconciled(t, serverID, fs, now);
    hide Reconciled;
    forall fp | fp in Stale(Upserted(r, fs), serverID, Fingerprints(fs)) ensures false {
      UpsertedKeys(r, fs, fp);
      ReconciledAt(t, serverID, fs, now, fp);
    }
    if SameRanks(fs) {
      forall f | f in fs
        ensures Open(r, f.fingerprint) && SeverityRank(r[f.fingerprint].severity) == SeverityRank(f.severity)
      {
        ReconciledAt(t, serverID, fs, now, f.fingerprint);
        RankOfUpserted(t, fs, f);
      }
      SameRanksAreQuiet(r, fs, |fs|);
      assert fs[..|fs|] == fs;
    }
    if UpsertChanges(r, fs) == [] {
      forall f, g | f in fs && g in fs && f.fingerprint == g.fingerprint
        ensures SeverityRank(f.severity) == SeverityRank(g.severity)
      {
        QuietMeansFalling(r, fs, f);
        QuietMeansFalling(r, fs, g);
        SeverityIsLast(t, r, fs, f.fingerprint);
        ReconciledAt(t, serverID, fs, now, f.fingerprint);
      }
    }
  }

  // ---- the language of transitions ----

  datatype Phase = Absent | Opened | Ended

  /** new, severity_increased*, (resolved, reopened, severity_increased*)*, and possibly a last
      resolved: where a history leaves a fingerprint, or `None` when it breaks that pattern. */
  function Follow(changes: seq<Change>, fp: string): Option<Phase> {
    if changes == [] then Some(Absent)
    else
      var last, before := changes[|changes| - 1], Follow(changes[..|changes| - 1], fp);
      if last.fingerprint != fp then before
      else
        match (before, last.kind)
        case (Some(Absent), New) => Some(Opened)
        case (Some(Opened), SeverityIncreased) => Some(Opened)
        case (Some(Opened), Closed) => Some(Ended)
        case (Some(Ended), Reopened) => Some(Opened)
        case _ => None
  }

  function PhaseOf(t: Table, fp: string): Phase {
    if fp !in t then Absent else if t[fp].status == Resolved then Ended else Opened
  }

  lemma FollowSnoc(changes: seq<Change>, last: Change, fp: string)
    ensures last.fingerprint != fp ==> Follow(changes + [last], fp) == Follow(changes, fp)
    ensures last.fingerprint == fp ==>
              Follow(changes + [last], fp) ==
              match (Follow(changes, fp), last.kind)
              case (Some(Absent), New) => Some(Opened)
              case (Some(Opened), SeverityIncreased) => Some(Opened)
              case (Some(Opened), Closed) => Some(Ended)
              case (Some(Ended), Reopened) => Some(Opened)
              case _ => None
  {
    assert (changes + [last])[..|changes + [last]| - 1] == changes;
  }

  lemma UpsertFollowsAt(t: Table, f: Finding, log: seq<Change>, fp: string)
    requires Follow(log, fp) == Some(PhaseOf(t, fp))
    ensures Follow(log + ChangesOf(t, f), fp) == Some(PhaseOf(t[f.fingerprint := Row(t, f)], fp))
  {
    var more := ChangesOf(t, f);
    if more == [] {
      assert log + more == log;
    } else {
      FollowSnoc(log, more[0], fp);
    }
  }

  lemma {:induction false} UpsertsFollow(t: Table, fs: seq<Finding>, log: seq<Change>, fp: string)
    requires Follow(log, fp) == Some(PhaseOf(t, fp))
    ensures Follow(log + UpsertChanges(t, fs), fp) == Some(PhaseOf(Upserted(t, fs), fp))
  {
    hide Follow, Row, ChangesOf, PhaseOf;
    if fs == [] {
      assert log + [] == log;
    } else {
      var front, last := fs[..|fs| - 1], fs[|fs| - 1];
      UpsertsFollow(t, front, log, fp);
      UpsertFollowsAt(Upserted(t, front), last, log + UpsertChanges(t, front), fp);
      assert log + UpsertChanges(t, fs) == log + UpsertChanges(t, front) + ChangesOf(Upserted(t, front), last);
    }
  }

  lemma {:induction false} ResolvesFollow(t: Table, order: seq<string>, now: Time, log: seq<Change>, fp: string)
    requires Follow(log, fp) == Some(PhaseOf(t, fp))
    requires forall x :: x in order ==> x in t && Open(t, x)
    requires forall i, j :: 0 <= i < j < |order| ==> order[i] != order[j]
    ensures Follow(log + ResolvedChanges(t, order, now), fp) == Some(if fp in order then Ended else PhaseOf(t, fp))
  {
    if order == [] {
      assert log + ResolvedChanges(t, order, now) == log;
    } else {
      var front, last := order[..|order| - 1], order[|order| - 1];
      ResolvesFollow(t, front, now, log, fp);
      hide Follow;
      var had := log + ResolvedChanges(t, front, now);
      assert log + ResolvedChanges(t, order, now) == had + [ResolvedChange(t, last, now)];
      FollowSnoc(had, ResolvedChange(t, last, now), fp);
      assert fp in order <==> fp in front || fp == last;
      assert last !in front;
    }
  }

  // ---- all runs ----

  datatype State = State(table: Table, log: seq<Change>)

  ghost predicate Upsert(s: State, s': State, serverID: string, fs: seq<Finding>, now: Time) {
    && s'.table == Reconciled(s.table, serverID, fs, now)
    && exists changes :: Reports(s.table, serverID, fs, now, changes) && s'.log == s.log + changes
  }

  ghost predicate SetStatus(s: State, s': State, id: string, status: Status, now: Time) {
    && (status == Active || status == Acknowledged)
    && s' == s.(table := WithStatus(s.table, id, status, now))
  }

  ghost predicate Next(s: State, s': State) {
    || (exists serverID, fs, now :: Upsert(s, s', serverID, fs, now))
    || (exists id, status, now :: SetStatus(s, s', id, status, now))
  }

  ghost predicate Run(trace: seq<State>) {
    && |trace| > 0 && trace[0] == State(map[], [])
    && forall k :: 0 < k < |trace| ==> Next(trace[k - 1], trace[k])
  }

  /** A row carries its fingerprint, and a resolution time exactly when it is resolved. */
  ghost predicate RowsConsistent(t: Table) {
    forall fp :: fp in t ==> t[fp].fingerprint == fp && (t[fp].resolvedAt.Some? <==> t[fp].status == Resolved)
  }

  /** What never changes about a finding once it is stored. */
  ghost predicate Persists(t: Table, t': Table) {
    forall fp :: fp in t ==>
      && fp in t' && t'[fp].startedAt == t[fp].startedAt && t'[fp].id == t[fp].id && t'[fp].serverID == t[fp].serverID
      && t'[fp].ruleID == t[fp].ruleID && t'[fp].category == t[fp].category && t'[fp].resource == t[fp].resource
  }

  lemma {:induction false} UpsertsPersist(t: Table, fs: seq<Finding>)
    ensures Persists(t, Upserted(t, fs))
    ensures RowsConsistent(t) ==> RowsConsistent(Upserted(t, fs))
  {
    if fs != [] { UpsertsPersist(t, fs[..|fs| - 1]); }
  }

  ghost predicate Follows(s: State) {
    forall fp :: Follow(s.log, fp) == Some(PhaseOf(s.table, fp))
  }

  lemma UpsertFollows(s: State, s': State, serverID: string, fs: seq<Finding>, now: Time)
    requires Follows(s) && Upsert(s, s', serverID, fs, now)
    ensures Follows(s')
  {
    hide Follow, UpsertChanges, ResolvedChanges, Upserted, Fingerprints;
    var upserted := Upserted(s.table, fs);
    var stale := Stale(upserted, serverID, Fingerprints(fs));
    var order: seq<string> :|
      && Elements(order) == stale
      && (forall i, j :: 0 <= i < j < |order| ==> order[i] != order[j])
      && (forall fp :: fp in order ==> fp in upserted)
      && s'.log == s.log + (UpsertChanges(s.table, fs) + ResolvedChanges(upserted, order, now));
    forall fp ensures Follow(s'.log, fp) == Some(PhaseOf(s'.table, fp)) {
      UpsertsFollow(s.table, fs, s.log, fp);
      forall x | x in order ensures x in upserted && Open(upserted, x) { assert x in Elements(order); }
      ResolvesFollow(upserted, order, now, s.log + UpsertChanges(s.table, fs), fp);
      assert s'.log == s.log + UpsertChanges(s.table, fs) + ResolvedChanges(upserted, order, now);
      assert fp in order <==> fp in Elements(order);
    }
  }

  lemma UpsertKeepsRows(t: Table, serverID: string, fs: seq<Finding>, now: Time)
    requires RowsConsistent(t)
    ensures RowsConsistent(Reconciled(t, serverID, fs, now)) && Persists(t, Reconciled(t, serverID, fs, now))
  {
    UpsertsPersist(t, fs);
    hide Upserted, Fingerprints;
  }

  lemma SetStatusKeeps(s: State, s': State, id: string, status: Status, now: Time)
    requires SetStatus(s, s', id, status, now) && Follows(s) && RowsConsistent(s.table)
    ensures Follows(s') && RowsConsistent(s'.table) && Persists(s.table, s'.table)
  {
    hide Follow;
    forall fp ensures PhaseOf(s'.table, fp) == PhaseOf(s.table, fp) { }
    forall fp ensures Follow(s'.log, fp) == Some(PhaseOf(s'.table, fp)) {
      assert Follow(s.log, fp) == Some(PhaseOf(s.table, fp));
    }
  }

  lemma NextKeeps(s: State, s': State)
    requires Next(s, s') && Follows(s) && RowsConsistent(s.table)
    ensures Follows(s') && RowsConsistent(s'.table) && Persists(s.table, s'.table)
  {
    hide Follows, RowsConsistent, Persists, Reconciled;
    if serverID, fs, now :| Upsert(s, s', serverID, fs, now) {
      UpsertFollows(s, s', serverID, fs, now);
      UpsertKeepsRows(s.table, serverID, fs, now);
    } else {
      var id, status, now :| SetStatus(s, s', id, status, now);
      SetStatusKeeps(s, s', id, status, now);
    }
  }

  lemma PersistsTransitive(a: Table, b: Table, c: Table)
    requires Persists(a, b) && Persists(b, c)
    ensures Persists(a, c)
  {
  }

  lemma InitHolds()
    ensures Follows(State(map[], [])) && RowsConsistent(map[])
  {
  }

  lemma {:induction false} RunKeeps(trace: seq<State>, k: nat)
    requires Run(trace) && k < |trace|
    ensures Follows(trace[|trace| - 1]) && RowsConsistent(trace[|trace| - 1].table)
    ensures Persists(trace[k].table, trace[|trace| - 1].table)
    decreases |trace|
  {
    hide Follows, RowsConsistent, Next;
    if |trace| > 1 {
      var front := trace[..|trace| - 1];
      RunKeeps(front, if k < |front| then k else 0);
      NextKeeps(trace[|trace| - 2], trace[|trace| - 1]);
      if k < |front| {
        PersistsTransitive(trace[k].table, trace[|trace| - 2].table, trace[|trace| - 1].table);
      }
    } else {
      InitHolds();
    }
  }

  /** Over every sequence of `UpsertFindings` and `SetFindingStatus` calls each fingerprint's
      transitions follow the pattern and end where its row stands, a row is resolved exactly when
      it has a resolution time, and what identifies a finding, its start included, never changes. */
  lemma LifecycleOverAllRuns(trace: seq<State>, k: nat, fp: string)
    requires Run(trace) && k < |trace|
    ensures var last := trace[|trace| - 1];
            && Follow(last.log, fp) == Some(PhaseOf(last.table, fp))
            && (fp in last.table ==> (last.table[fp].resolvedAt.Some? <==> last.table[fp].status == Resolved))
            && (fp in trace[k].table ==>
                  && fp in last.table
                  && last.table[fp].startedAt == trace[k].table[fp].startedAt
                  && last.table[fp].serverID == trace[k].table[fp].serverID
                  && last.table[fp].id == trace[k].table[fp].id)
  {
    RunKeeps(trace, k);
  }
}
