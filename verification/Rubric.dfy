/** The risk rubric's grades (impact/impact/rubric.py:86-466): when a change is graded LOW. */
module Rubric {
  import opened Common
  import opened Impact

  datatype ChangeType = Upgrade | Config

  datatype Change = Change(kind: ChangeType, target: string)

  datatype RiskGrade = High | Medium | Low | InsufficientEvidence

  datatype History = FailureMatch | Contact | NoHistory | UnknownHistory

  datatype Criticality = Critical | NonCritical | UnknownCriticality

  datatype Blast = Wide | Narrow | UnknownBlast

  /** A past change with its outcome. */
  datatype Record = Record(change: Change, outcome: string)

  const FAILED_OUTCOMES := {"rejected", "rolled-back"}

  datatype HistoryStore = HistoryStore(path: Option<string>, present: bool, records: seq<Record>)

  /** A store of Episodes: what it says of a target. */
  datatype EpisodeStore = EpisodeStore(path: Option<string>, present: bool, mentions: string -> seq<string>)

  datatype ReportStore =
    ReportStore(path: Option<string>, present: bool, isDir: bool, unreadable: nat, mentions: string -> seq<string>)

  /** The reference graph: the partners it gives a target, each with the entities behind it. */
  datatype SpecGraph = SpecGraph(path: Option<string>, present: bool, partners: string -> seq<seq<string>>,
                                 entityName: string -> Option<string>)

  datatype Evidence = Evidence(history: HistoryStore, triage: EpisodeStore, dispatch: EpisodeStore,
                               reports: ReportStore,
                               capture: Capture, specgraph: SpecGraph)

  predicate Attests(path: Option<string>, present: bool) {
    path.Some? && present
  }

  predicate ReportsAttest(r: ReportStore) {
    Attests(r.path, r.present) && r.isDir && r.unreadable == 0
  }

  function BlastFromCount(affected: Option<nat>): Blast {
    if affected.None? then UnknownBlast else if affected.value >= 2 then Wide else Narrow
  }

  function GradeMatrix(history: History, criticality: Criticality, blast: Blast): RiskGrade {
    if history == FailureMatch || criticality == Critical then High
    else if history == Contact || blast == Wide then Medium
    else if history == NoHistory && criticality == NonCritical && blast == Narrow then Low
    else InsufficientEvidence
  }

  /** A change of the kind on the target has failed before. */
  ghost predicate FailedBefore(change: Change, h: HistoryStore) {
    && h.path.Some? && h.present
    && exists k :: 0 <= k < |h.records| && h.records[k].change == change
                   && (h.records[k].outcome == "rejected" || h.records[k].outcome == "rolled-back")
  }

  /** Some store of Episodes or reports mentions the target. */
  ghost predicate Mentioned(target: string, e: Evidence) {
    e.triage.mentions(target) != [] || e.dispatch.mentions(target) != [] || e.reports.mentions(target) != []
  }

  /** All four stores are there to be asked. */
  ghost predicate AllOnFile(e: Evidence) {
    && e.history.path.Some? && e.history.present && e.triage.path.Some? && e.triage.present
    && e.dispatch.path.Some? && e.dispatch.present
    && e.reports.path.Some? && e.reports.present && e.reports.isDir && e.reports.unreadable == 0
  }

  method AssessHistory(change: Change, e: Evidence) returns (signal: History)
    ensures signal == FailureMatch <==> FailedBefore(change, e.history)
    ensures signal == Contact <==> !FailedBefore(change, e.history) && Mentioned(change.target, e)
    ensures signal == NoHistory <==>
            !FailedBefore(change, e.history) && !Mentioned(change.target, e) && AllOnFile(e)
    ensures signal == UnknownHistory <==>
            !FailedBefore(change, e.history) && !Mentioned(change.target, e) && !AllOnFile(e)
  {
    if e.history.path.Some? && e.history.present {
      for i := 0 to |e.history.records|
        invariant forall k :: 0 <= k < i ==>
                    e.history.records[k].change != change || e.history.records[k].outcome !in FAILED_OUTCOMES
      {
        var r := e.history.records[i];
        if r.change.kind == change.kind && r.change.target == change.target && r.outcome in FAILED_OUTCOMES {
          assert e.history.records[i].change == change;
          return FailureMatch;
        }
      }
    }
    var labels := e.triage.mentions(change.target) + e.dispatch.mentions(change.target);
    var reports := e.reports.mentions(change.target);
    if labels != [] || reports != [] {
      return Contact;
    }
    var history, triage := Attests(e.history.path, e.history.present), Attests(e.triage.path, e.triage.present);
    var dispatch, filed := Attests(e.dispatch.path, e.dispatch.present), ReportsAttest(e.reports);
    if !(history || triage || dispatch || filed) {
      return UnknownHistory;
    }
    signal := if history && triage && dispatch && filed then NoHistory else UnknownHistory;
  }

  function ReferencePartners(g: SpecGraph, target: string): seq<seq<string>> {
    if Attests(g.path, g.present) then g.partners(target) else []
  }

  /** Which names are critical interfaces. */
  type IsCritical = string -> bool

  function NameAt(c: Capture, p: Pointer): string {
    var m := MessageAt(c, p);
    if m.Some? then m.value.name else ""
  }

  /** A critical interface at the evidence of the target or of a partner. */
  predicate CaptureHits(critical: IsCritical, c: Capture, result: BlastResult) {
    && result.target.Some?
    && (critical(NameAt(c, result.target.value.evidence))
        || exists k :: 0 <= k < |result.affected| && critical(NameAt(c, result.affected[k].evidence)))
  }

  function EntityName(g: SpecGraph, id: string): string {
    if g.entityName(id).Some? then g.entityName(id).value else ""
  }

  predicate SpecgraphHits(critical: IsCritical, g: SpecGraph, partners: seq<seq<string>>) {
    exists k, l :: 0 <= k < |partners| && 0 <= l < |partners[k]| && critical(EntityName(g, partners[k][l]))
  }

  /** From the capture if the target is located there, else from the reference graph. */
  function AssessBlast(change: Change, e: Evidence, result: BlastResult): Blast {
    if change.kind == Config then UnknownBlast
    else if result.target.Some? then
      BlastFromCount(if result.unknownPeers > 0 && |result.affected| < 2 then None else Some(|result.affected|))
    else
      var partners := ReferencePartners(e.specgraph, change.target);
      if partners != [] then BlastFromCount(Some(|partners|)) else UnknownBlast
  }

  function AssessCriticality(critical: IsCritical, change: Change, e: Evidence, result: BlastResult): Criticality {
    if change.kind == Config then UnknownCriticality
    else
      var partners := ReferencePartners(e.specgraph, change.target);
      if CaptureHits(critical, e.capture, result) || SpecgraphHits(critical, e.specgraph, partners) then Critical
      else if result.target.Some? && result.unknownPeers == 0 then NonCritical
      else if result.unknownPeers > 0 then UnknownCriticality
      else if partners != [] then NonCritical
      else UnknownCriticality
  }

  /** The partners that the reference graph gives the target, if it is there to be asked. */
  ghost function Partners(e: Evidence, target: string): seq<seq<string>> {
    if e.specgraph.path.Some? && e.specgraph.present then e.specgraph.partners(target) else []
  }

  /** A critical interface at the message that shows the target, or one that shows an affected NF, or among the
      entities behind the reference partners. */
  ghost predicate CriticalInReach(critical: IsCritical, change: Change, e: Evidence, result: BlastResult) {
    || (result.target.Some?
        && (CriticalAt(critical, e.capture, result.target.value.evidence)
            || exists k :: 0 <= k < |result.affected| && CriticalAt(critical, e.capture, result.affected[k].evidence)))
    || exists k, l :: 0 <= k < |Partners(e, change.target)| && 0 <= l < |Partners(e, change.target)[k]|
                      && CriticalEntity(critical, e.specgraph, Partners(e, change.target)[k][l])
  }

  ghost predicate CriticalAt(critical: IsCritical, c: Capture, p: Pointer) {
    || (exists m :: StandsAt(c, p, m) && critical(m.name))
    || (critical("") && forall m :: !StandsAt(c, p, m))
  }

  ghost predicate CriticalEntity(critical: IsCritical, g: SpecGraph, id: string) {
    critical(if g.entityName(id).Some? then g.entityName(id).value else "")
  }

  lemma NameIsAt(critical: IsCritical, c: Capture, p: Pointer)
    ensures critical(NameAt(c, p)) <==> CriticalAt(critical, c, p)
  {
    if MessageAt(c, p).Some? {
      assert StandsAt(c, p, MessageAt(c, p).value);
    }
  }

  lemma HitsAreInReach(critical: IsCritical, change: Change, e: Evidence, result: BlastResult)
    ensures ReferencePartners(e.specgraph, change.target) == Partners(e, change.target)
    ensures CaptureHits(critical, e.capture, result) || SpecgraphHits(critical, e.specgraph, Partners(e, change.target))
            <==> CriticalInReach(critical, change, e, result)
  {
    forall p
      ensures critical(NameAt(e.capture, p)) <==> CriticalAt(critical, e.capture, p)
    {
      NameIsAt(critical, e.capture, p);
    }
    hide MessageAt, CriticalAt;
    var partners := Partners(e, change.target);
    forall k, l | 0 <= k < |partners| && 0 <= l < |partners[k]|
      ensures critical(EntityName(e.specgraph, partners[k][l]))
              <==> CriticalEntity(critical, e.specgraph, partners[k][l])
    {
    }
  }

  /** What full knowledge of a harmless radius is: the target located with every peer's role known and at most
      one other NF affected; or, not located, exactly one reference partner. No critical interface either way. */
  ghost predicate KnownHarmless(critical: IsCritical, change: Change, e: Evidence, result: BlastResult) {
    && !CriticalInReach(critical, change, e, result)
    && if result.target.Some? then result.unknownPeers == 0 && |result.affected| <= 1
       else |Partners(e, change.target)| == 1
  }

  /** Two or more NFs are affected; when the target is not located, the reference partners count instead. */
  ghost predicate ReachesTwo(change: Change, e: Evidence, result: BlastResult) {
    if result.target.Some? then |result.affected| >= 2 else |Partners(e, change.target)| >= 2
  }

  /** When the reach is wide or known to be narrow, and whether it is known to hold a critical interface. */
  lemma FactorsMean(critical: IsCritical, change: Change, e: Evidence, result: BlastResult)
    ensures var blast := AssessBlast(change, e, result);
            && (blast == Wide <==> change.kind == Upgrade && ReachesTwo(change, e, result))
            && (blast == Narrow <==>
                  change.kind == Upgrade && !ReachesTwo(change, e, result)
                  && if result.target.Some? then result.unknownPeers == 0 else |Partners(e, change.target)| == 1)
    ensures var criticality := AssessCriticality(critical, change, e, result);
            && (criticality == Critical <==> change.kind == Upgrade && CriticalInReach(critical, change, e, result))
            && (criticality == NonCritical <==>
                  change.kind == Upgrade && !CriticalInReach(critical, change, e, result) && result.unknownPeers == 0
                  && (result.target.Some? || |Partners(e, change.target)| > 0))
  {
    HitsAreInReach(critical, change, e, result);
    hide CaptureHits, SpecgraphHits, CriticalInReach;
  }

  /** HIGH for a failure of the past or a critical interface in reach; else MEDIUM for a mention or a wide reach; else
      LOW exactly on full knowledge: an upgrade, four stores that attest to silence, and a radius known to be
      harmless; else the evidence does not suffice. */
  method Grade(rd: Reading, critical: IsCritical, change: Change, e: Evidence)
    returns (grade: RiskGrade, result: BlastResult, ghost roles: seq<Role>, ghost unknown: seq<string>)
    ensures AreRoles(rd, e.capture, roles)
    ensures result.target.Some? ==>
              IsTarget(rd, roles, change.target, result.target.value)
              && IsRadius(rd, roles, result.target.value, e.capture, result, unknown)
    ensures result.target == if Consulted(e.capture)
              then FindTarget(rd, RolesOf(rd, e.capture), change.target) else None
    ensures result.target.None? ==> result == BlastResult(None, [], 0, [])
    ensures result.target.Some? ==>
              IsExact(Target(rd, RolesOf(rd, e.capture), result.target.value), e.capture, result)
    ensures grade == High <==>
            FailedBefore(change, e.history) || (change.kind == Upgrade && CriticalInReach(critical, change, e, result))
    ensures grade == Medium <==>
            && !FailedBefore(change, e.history)
            && !(change.kind == Upgrade && CriticalInReach(critical, change, e, result))
            && (Mentioned(change.target, e) || (change.kind == Upgrade && ReachesTwo(change, e, result)))
    ensures grade == Low <==>
            && change.kind == Upgrade && !FailedBefore(change, e.history) && !Mentioned(change.target, e)
            && AllOnFile(e) && KnownHarmless(critical, change, e, result)
  {
    hide IsExact, FindTarget, AreRoles, IsTarget, IsRadius, RolesOf, CaptureHits, SpecgraphHits, ReferencePartners,
         FailedBefore, Mentioned, AllOnFile, CriticalInReach, Partners, AssessBlast, AssessCriticality;
    var history := AssessHistory(change, e);
    result, roles, unknown := BlastRadius(rd, change.target, e.capture);
    FactorsMean(critical, change, e, result);
    var criticality := AssessCriticality(critical, change, e, result);
    var blast := AssessBlast(change, e, result);
    grade := GradeMatrix(history, criticality, blast);
  }

  /** With the target located, LOW leaves no endpoint beside it unexplained: whoever shares a message with it is
      of its own role or the one affected NF. */
  lemma LowExplainsEveryPeer(rd: Reading, critical: IsCritical, change: Change, e: Evidence, result: BlastResult,
                             ip: string)
    requires result.target.Some? && KnownHarmless(critical, change, e, result)
    requires var t := Target(rd, RolesOf(rd, e.capture), result.target.value);
             IsExact(t, e.capture, result) && Seen(t, WholeScan(e.capture), ip)
    ensures var t := Target(rd, RolesOf(rd, e.capture), result.target.value);
            && RoleAt(t.roles, ip).Some?
            && (SameRole(t, RoleAt(t.roles, ip).value) || (|result.affected| == 1 && result.affected[0].ip == ip))
  {
    hide RolesOf, WholeScan, RoleAt, SameRole, Seen, CriticalInReach, Partners, Carries, FirstMeets, Attributions;
    var t := Target(rd, RolesOf(rd, e.capture), result.target.value);
    var unknown :| Explains(t, e.capture, result, unknown);
    assert unknown == [];
    assert !IsUnknown(t, e.capture, ip);
    if !SameRole(t, RoleAt(t.roles, ip).value) {
      assert IsAffected(t, e.capture, ip);
    }
  }
}
