/** KPIs over the flows and over the joined planes (5gcap/fivegcap/kpi.py). */
module Kpi {
  import opened Common
  import opened Messages
  import opened FlowProcedures
  import opened Flows

  // ----- Single-plane KPIs -----

  datatype KpiResult = KpiResult(attachTimesMs: seq<real>, pduSessionTimesMs: seq<real>, successes: nat, failures: nat)

  ghost function CountOutcome(ps: seq<Procedure>, o: FlowProcedures.Outcome): nat {
    if ps == [] then 0 else CountOutcome(ps[..|ps| - 1], o) + if ps[|ps| - 1].outcome == o then 1 else 0
  }

  ghost function Durations(ps: seq<Procedure>, k: Kind): seq<real>
    requires forall p :: p in ps ==> p.endTs.Some?
  {
    if ps == [] then []
    else
      var p := ps[|ps| - 1];
      Durations(ps[..|ps| - 1], k) + if p.kind == k then [(p.endTs.value - p.startTs) * 1000.0] else []
  }

  /** The procedures of the flows, of the complete ones only or of all. */
  ghost function ProceduresIn(flows: seq<FlowView>, completeOnly: bool): seq<Procedure> {
    if flows == [] then []
    else
      var f := flows[|flows| - 1];
      ProceduresIn(flows[..|flows| - 1], completeOnly) + if completeOnly && f.partial then [] else f.procedures
  }

  ghost predicate AllClosed(flows: seq<FlowView>) {
    forall f, p :: f in flows && p in f.procedures ==> Closed(p)
  }

  /** The flows of a capture store closed procedures only, so compute is defined on them. */
  lemma FlowsAreClosed(decode: Decoder, ms: seq<NgapMsg>)
    ensures AllClosed(FlowsOf(decode, ms))
  {
    var fs := FlowsOf(decode, ms);
    forall f, p | f in fs && p in f.procedures
      ensures Closed(p)
    {
      var i :| 0 <= i < |fs| && fs[i] == f;
      ProceduresAreClosed(Decoded(decode, Select(ms, Keys(ms)[i])));
    }
    hide Keys, Select, Decoded, Closed;
  }

  lemma ClosedIn(flows: seq<FlowView>, n: nat, completeOnly: bool)
    requires AllClosed(flows) && n <= |flows|
    ensures forall p :: p in ProceduresIn(flows[..n], completeOnly) ==> Closed(p)
  {
    if n > 0 {
      ClosedIn(flows, n - 1, completeOnly);
      TakeSnoc(flows, n - 1);
      assert flows[n - 1] in flows;
    }
  }

  method Compute(flows: seq<FlowView>) returns (r: KpiResult)
    requires AllClosed(flows)
    ensures forall p :: p in ProceduresIn(flows, true) ==> p.endTs.Some?
    ensures r.attachTimesMs == Durations(ProceduresIn(flows, true), Registration)
    ensures r.pduSessionTimesMs == Durations(ProceduresIn(flows, true), PduSessionEst)
    ensures r.successes == CountOutcome(ProceduresIn(flows, false), FlowProcedures.Accept)
    ensures r.failures == CountOutcome(ProceduresIn(flows, false), FlowProcedures.Reject)
  {
    hide Durations, CountOutcome, ProceduresIn, AllClosed;
    var attach, pdu, successes, failures := [], [], 0, 0;
    NoProcedures(flows);
    for i := 0 to |flows|
      invariant forall p :: p in ProceduresIn(flows[..i], true) ==> p.endTs.Some?
      invariant attach == Durations(ProceduresIn(flows[..i], true), Registration)
      invariant pdu == Durations(ProceduresIn(flows[..i], true), PduSessionEst)
    {
      var f := flows[i];
      ghost var before := ProceduresIn(flows[..i], true);
      ProceduresInAppend(flows, i, true);
      assert before + [] == before && f.procedures[..0] == [];
      assert forall p :: p in f.procedures ==> p.endTs.Some? by {
        FlowIsClosed(flows, i);
      }
      if !f.partial {
        for j := 0 to |f.procedures|
          invariant forall p :: p in before + f.procedures[..j] ==> p.endTs.Some?
          invariant attach == Durations(before + f.procedures[..j], Registration)
          invariant pdu == Durations(before + f.procedures[..j], PduSessionEst)
        {
          var p := f.procedures[j];
          assert p in f.procedures;
          DurationsAppend(before, f.procedures, j, Registration);
          DurationsAppend(before, f.procedures, j, PduSessionEst);
          if p.kind == Registration {
            attach := attach + [(p.endTs.value - p.startTs) * 1000.0];
          } else {
            pdu := pdu + [(p.endTs.value - p.startTs) * 1000.0];
          }
        }
        assert f.procedures[..|f.procedures|] == f.procedures;
      }
    }
    for i := 0 to |flows|
      invariant successes == CountOutcome(ProceduresIn(flows[..i], false), FlowProcedures.Accept)
      invariant failures == CountOutcome(ProceduresIn(flows[..i], false), FlowProcedures.Reject)
    {
      var f := flows[i];
      ghost var before := ProceduresIn(flows[..i], false);
      ProceduresInAppend(flows, i, false);
      assert before + [] == before && f.procedures[..0] == [];
      for j := 0 to |f.procedures|
        invariant successes == CountOutcome(before + f.procedures[..j], FlowProcedures.Accept)
        invariant failures == CountOutcome(before + f.procedures[..j], FlowProcedures.Reject)
      {
        CountAppend(before, f.procedures, j, FlowProcedures.Accept);
        CountAppend(before, f.procedures, j, FlowProcedures.Reject);
        if f.procedures[j].outcome == FlowProcedures.Accept {
          successes := successes + 1;
        } else if f.procedures[j].outcome == FlowProcedures.Reject {
          failures := failures + 1;
        }
      }
      assert f.procedures[..|f.procedures|] == f.procedures;
    }
    assert flows[..|flows|] == flows;
    r := KpiResult(attach, pdu, successes, failures);
  }

  lemma NoProcedures(flows: seq<FlowView>)
    ensures forall completeOnly :: ProceduresIn(flows[..0], completeOnly) == []
    ensures (forall k :: Durations([], k) == []) && forall o :: CountOutcome([], o) == 0
  {
  }

  lemma ProceduresInAppend(flows: seq<FlowView>, i: nat, completeOnly: bool)
    requires i < |flows|
    ensures ProceduresIn(flows[..i + 1], completeOnly) ==
            ProceduresIn(flows[..i], completeOnly)
            + if completeOnly && flows[i].partial then [] else flows[i].procedures
  {
    TakeSnoc(flows, i);
  }

  lemma FlowIsClosed(flows: seq<FlowView>, i: nat)
    requires AllClosed(flows) && i < |flows|
    ensures forall p :: p in flows[i].procedures ==> Closed(p)
  {
    assert flows[i] in flows;
  }

  lemma DurationsAppend(before: seq<Procedure>, ps: seq<Procedure>, j: nat, k: Kind)
    requires j < |ps| && (forall p :: p in before + ps[..j] ==> p.endTs.Some?) && ps[j].endTs.Some?
    ensures forall p :: p in before + ps[..j + 1] ==> p.endTs.Some?
    ensures Durations(before + ps[..j + 1], k) ==
            Durations(before + ps[..j], k)
            + if ps[j].kind == k then [(ps[j].endTs.value - ps[j].startTs) * 1000.0] else []
  {
    var s := before + ps[..j];
    assert before + ps[..j + 1] == s + [ps[j]];
    assert (s + [ps[j]])[..|s|] == s;
  }

  lemma CountAppend(before: seq<Procedure>, ps: seq<Procedure>, j: nat, o: FlowProcedures.Outcome)
    requires j < |ps|
    ensures CountOutcome(before + ps[..j + 1], o) ==
            CountOutcome(before + ps[..j], o) + if ps[j].outcome == o then 1 else 0
  {
    var s := before + ps[..j];
    assert before + ps[..j + 1] == s + [ps[j]];
    assert (s + [ps[j]])[..|s|] == s;
  }

  /** Every stored procedure counts as a success or as a failure. */
  lemma {:induction false} OutcomesAreComplete(ps: seq<Procedure>)
    requires forall p :: p in ps ==> Closed(p)
    ensures CountOutcome(ps, FlowProcedures.Accept) + CountOutcome(ps, FlowProcedures.Reject) == |ps|
  {
    if ps != [] {
      OutcomesAreComplete(ps[..|ps| - 1]);
      assert ps[|ps| - 1] in ps;
    }
  }

  lemma SuccessesAndFailuresAddUp(decode: Decoder, ms: seq<NgapMsg>)
    ensures var ps := ProceduresIn(FlowsOf(decode, ms), false);
            CountOutcome(ps, FlowProcedures.Accept) + CountOutcome(ps, FlowProcedures.Reject) == |ps|
  {
    var fs := FlowsOf(decode, ms);
    FlowsAreClosed(decode, ms);
    ClosedIn(fs, |fs|, false);
    assert fs[..|fs|] == fs;
    OutcomesAreComplete(ProceduresIn(fs, false));
  }
}
