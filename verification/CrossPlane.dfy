/** Cross-plane PDU session latencies (5gcap/fivegcap/kpi.py:58-145): each flow's joined
    messages are grouped into sessions, and each session yields at most one sample per KPI. */
module CrossPlane {
  import opened Common
  import opened Messages
  import opened Flows
  import opened Correlate
  import Sbi
  import Pfcp

  /** The legs of one session, each present only when it was observed exactly once. */
  datatype Legs = Legs(create: Option<real>, est: Option<real>, setup: Option<real>)

  function Latency(from: Option<real>, to: Option<real>): Option<real> {
    if from.Some? && to.Some? then Some((to.value - from.value) * 1000.0) else None
  }

  datatype Kpi = SbiToN4 | N4ToN2 | SbiToN2

  function Sample(l: Legs, k: Kpi): Option<real> {
    match k
    case SbiToN4 => Latency(l.create, l.est)
    case N4ToN2 => Latency(l.est, l.setup)
    case SbiToN2 => Latency(l.create, l.setup)
  }

  ghost function Samples(ls: seq<Legs>, k: Kpi): seq<real> {
    if ls == [] then []
    else
      var s := Sample(ls[|ls| - 1], k);
      Samples(ls[..|ls| - 1], k) + if s.Some? then [s.value] else []
  }

  function Sum(xs: seq<real>): real {
    if xs == [] then 0.0 else Sum(xs[..|xs| - 1]) + xs[|xs| - 1]
  }

  function Mean(xs: seq<real>): Option<real> {
    if xs == [] then None else Some(Sum(xs) / |xs| as real)
  }

  // ----- Session anchors -----

  /** The flow's messages of one name, in order. */
  function Named(tr: seq<Entry>, name: NgapName): seq<NgapMsg> {
    if tr == [] then []
    else
      var m := tr[|tr| - 1].0;
      Named(tr[..|tr| - 1], name) + if m.name == name then [m] else []
  }

  /** Session id -> every tunnel a setup request declares for it. */
  ghost function TunnelsById(reqs: seq<NgapMsg>): map<int, set<Tunnel>> {
    if reqs == [] then map[]
    else
      var p, m := TunnelsById(reqs[..|reqs| - 1]), reqs[|reqs| - 1].reqSessionTunnels;
      map sid | sid in p.Keys + m.Keys ::
        (if sid in p then p[sid] else {}) + (if sid in m then set t | t in m[sid] else {})
  }

  function Repeat(ts: real, n: nat): seq<real> {
    seq(n, _ => ts)
  }

  /** Session id -> one time stamp per setup response item. */
  ghost function TimesById(rsps: seq<NgapMsg>): map<int, seq<real>> {
    if rsps == [] then map[]
    else
      var p, m := TimesById(rsps[..|rsps| - 1]), rsps[|rsps| - 1];
      map sid | sid in p.Keys + m.rspSessionCounts.Keys ::
        (if sid in p then p[sid] else [])
        + (if sid in m.rspSessionCounts then Repeat(m.ts, m.rspSessionCounts[sid]) else [])
  }

  predicate IsEstResponse(m: Pfcp.PfcpMsg) {
    m.name == Some("PFCP Session Establishment Response")
  }

  predicate IsCreate(m: Sbi.SbiMsg) {
    m.direction == Sbi.Request && m.httpMethod == Some("POST") && m.path == Some("/nsmf-pdusession/v1/sm-contexts")
  }

  ghost predicate Within(refs: seq<nat>, n: nat) {
    forall a :: 0 <= a < |refs| ==> refs[a] < n
  }

  function EstRefs(refs: seq<nat>, n4: seq<Pfcp.PfcpMsg>): (r: seq<nat>)
    requires Within(refs, |n4|)
    ensures Within(r, |n4|) && forall a :: 0 <= a < |r| ==> r[a] in refs
  {
    if refs == [] then []
    else
      var i := refs[|refs| - 1];
      EstRefs(refs[..|refs| - 1], n4) + if IsEstResponse(n4[i]) then [i] else []
  }

  function CreateRefs(refs: seq<nat>, sbi: seq<Sbi.SbiMsg>): (r: seq<nat>)
    requires Within(refs, |sbi|)
    ensures Within(r, |sbi|)
  {
    if refs == [] then []
    else
      var i := refs[|refs| - 1];
      CreateRefs(refs[..|refs| - 1], sbi) + if IsCreate(sbi[i]) then [i] else []
  }

  /** The sessions whose declared tunnels the establishment response names. */
  function Hits(tunnels: map<int, set<Tunnel>>, e: Pfcp.PfcpMsg): set<int> {
    set sid | sid in tunnels && exists t :: t in e.fTeids && t in tunnels[sid]
  }

  /** The establishment responses that name session sid and no other. */
  ghost function Anchored(tunnels: map<int, set<Tunnel>>, n4: seq<Pfcp.PfcpMsg>, ests: seq<nat>, sid: int)
    : (r: seq<nat>)
    requires Within(ests, |n4|)
    ensures Within(r, |n4|)
    ensures forall a :: 0 <= a < |r| ==> r[a] in ests && Hits(tunnels, n4[r[a]]) == {sid}
  {
    if ests == [] then []
    else
      var i := ests[|ests| - 1];
      Anchored(tunnels, n4, ests[..|ests| - 1], sid) + if Hits(tunnels, n4[i]) == {sid} then [i] else []
  }

  function CreatesFor(sbi: seq<Sbi.SbiMsg>, creates: seq<nat>, sid: Option<int>, smf: Option<Option<string>>)
    : (r: seq<nat>)
    requires Within(creates, |sbi|)
    ensures Within(r, |sbi|)
  {
    if creates == [] then []
    else
      var i := creates[|creates| - 1];
      CreatesFor(sbi, creates[..|creates| - 1], sid, smf)
      + if (sid.None? || sbi[i].pduSessionId == sid) && (smf.None? || sbi[i].dstIp == smf.value) then [i] else []
  }

  function SessionIds(tunnels: map<int, set<Tunnel>>, times: map<int, seq<real>>, sbi: seq<Sbi.SbiMsg>,
                      creates: seq<nat>): set<int>
    requires Within(creates, |sbi|)
  {
    tunnels.Keys + times.Keys
    + set a | 0 <= a < |creates| && sbi[creates[a]].pduSessionId.Some? :: sbi[creates[a]].pduSessionId.value
  }

  function Sole<T>(s: seq<T>): Option<T> {
    if |s| == 1 then Some(s[0]) else None
  }

  /** One session of a flow: the create leg is the one that reached the SMF of the N4 leg. */
  ghost function SessionLegs(tunnels: map<int, set<Tunnel>>, times: map<int, seq<real>>, n4: seq<Pfcp.PfcpMsg>,
                       ests: seq<nat>, sbi: seq<Sbi.SbiMsg>, creates: seq<nat>, sid: int): Legs
    requires Within(ests, |n4|) && Within(creates, |sbi|)
  {
    var est := Sole(Anchored(tunnels, n4, ests, sid));
    var cs := CreatesFor(sbi, creates, Some(sid), if est.Some? then Some(n4[est.value].dstIp) else None);
    var create := Sole(cs);
    Legs(if create.Some? then Some(sbi[create.value].ts) else None,
         if est.Some? then Some(n4[est.value].ts) else None,
         Sole(if sid in times then times[sid] else []))
  }

  /** A flow without session anchors: each leg must be the flow's only one. */
  function UnanchoredLegs(n4: seq<Pfcp.PfcpMsg>, ests: seq<nat>, sbi: seq<Sbi.SbiMsg>, creates: seq<nat>,
                          rsps: seq<NgapMsg>): Legs
    requires Within(ests, |n4|) && Within(creates, |sbi|)
  {
    var est := Sole(ests);
    var smf := if est.Some? && n4[est.value].dstIp.Some? then Some(n4[est.value].dstIp) else None;
    var cs := CreatesFor(sbi, creates, None, smf);
    var create := Sole(cs);
    Legs(if create.Some? then Some(sbi[create.value].ts) else None,
         if est.Some? then Some(n4[est.value].ts) else None,
         if |rsps| == 1 then Some(rsps[0].ts) else None)
  }

  // ----- Specification -----

  datatype Joined = Joined(sbi: seq<Sbi.SbiMsg>, n4: seq<Pfcp.PfcpMsg>,
                           sbiRefs: map<nat, seq<nat>>, n4Refs: map<nat, seq<nat>>)
  {
    ghost predicate Valid() {
      && (forall id :: id in sbiRefs ==> Within(sbiRefs[id], |sbi|))
      && (forall id :: id in n4Refs ==> Within(n4Refs[id], |n4|))
    }

    function N4Of(f: FlowView): (r: seq<nat>)
      requires Valid()
      ensures Within(r, |n4|)
    {
      if f.flowId in n4Refs then n4Refs[f.flowId] else []
    }

    function SbiOf(f: FlowView): (r: seq<nat>)
      requires Valid()
      ensures Within(r, |sbi|)
    {
      if f.flowId in sbiRefs then sbiRefs[f.flowId] else []
    }
  }

  ghost function LegsOf(j: Joined, tunnels: map<int, set<Tunnel>>, times: map<int, seq<real>>, ests: seq<nat>,
                  creates: seq<nat>, ids: seq<int>): (ls: seq<Legs>)
    requires Within(ests, |j.n4|) && Within(creates, |j.sbi|)
    ensures |ls| == |ids|
    ensures forall a :: 0 <= a < |ids| ==> ls[a] == SessionLegs(tunnels, times, j.n4, ests, j.sbi, creates, ids[a])
  {
    seq(|ids|, a requires 0 <= a < |ids| => SessionLegs(tunnels, times, j.n4, ests, j.sbi, creates, ids[a]))
  }

  /** The legs of every session of one flow, by session id. */
  ghost function FlowLegs(f: FlowView, j: Joined): seq<Legs>
    requires j.Valid()
  {
    var reqs, rsps := Named(f.messages, PduSetupRequest), Named(f.messages, PduSetupResponse);
    var ests, creates := EstRefs(j.N4Of(f), j.n4), CreateRefs(j.SbiOf(f), j.sbi);
    var tunnels, times := TunnelsById(reqs), TimesById(rsps);
    var ids := SessionIds(tunnels, times, j.sbi, creates);
    if ids == {} then [UnanchoredLegs(j.n4, ests, j.sbi, creates, rsps)]
    else LegsOf(j, tunnels, times, ests, creates, Ascending(ids))
  }

  ghost function AllLegs(flows: seq<FlowView>, j: Joined): seq<Legs>
    requires j.Valid()
  {
    if flows == [] then [] else AllLegs(flows[..|flows| - 1], j) + FlowLegs(flows[|flows| - 1], j)
  }

  // ----- The loops -----

  method SessionAnchors(reqs: seq<NgapMsg>, rsps: seq<NgapMsg>)
    returns (tunnels: map<int, set<Tunnel>>, times: map<int, seq<real>>)
    ensures tunnels == TunnelsById(reqs) && times == TimesById(rsps)
  {
    tunnels, times := map[], map[];
    for i := 0 to |reqs|
      invariant tunnels == TunnelsById(reqs[..i])
    {
      TakeSnoc(reqs, i);
      var m := reqs[i].reqSessionTunnels;
      tunnels := map sid | sid in tunnels.Keys + m.Keys ::
        (if sid in tunnels then tunnels[sid] else {}) + (if sid in m then set t | t in m[sid] else {});
    }
    for i := 0 to |rsps|
      invariant times == TimesById(rsps[..i])
    {
      TakeSnoc(rsps, i);
      var counts := rsps[i].rspSessionCounts;
      times := map sid | sid in times.Keys + counts.Keys ::
        (if sid in times then times[sid] else [])
        + (if sid in counts then Repeat(rsps[i].ts, counts[sid]) else []);
    }
    assert reqs[..|reqs|] == reqs && rsps[..|rsps|] == rsps;
  }

  lemma AnchoredNothing(tunnels: map<int, set<Tunnel>>, n4: seq<Pfcp.PfcpMsg>)
    ensures forall sid :: Anchored(tunnels, n4, [], sid) == []
  {
  }

  lemma AnchoredAppend(tunnels: map<int, set<Tunnel>>, n4: seq<Pfcp.PfcpMsg>, ests: seq<nat>, i: nat, sid: int)
    requires Within(ests, |n4|) && i < |n4|
    ensures Anchored(tunnels, n4, ests + [i], sid) ==
            Anchored(tunnels, n4, ests, sid) + if Hits(tunnels, n4[i]) == {sid} then [i] else []
  {
    assert (ests + [i])[..|ests|] == ests;
  }

  /** Each session's list holds the establishment responses that are anchored to it. */
  ghost predicate Files(tunnels: map<int, set<Tunnel>>, n4: seq<Pfcp.PfcpMsg>, ests: seq<nat>,
                        bySession: map<int, seq<nat>>)
    requires Within(ests, |n4|)
  {
    forall sid :: Anchored(tunnels, n4, ests, sid) == if sid in bySession then bySession[sid] else []
  }

  lemma FilesOne(tunnels: map<int, set<Tunnel>>, n4: seq<Pfcp.PfcpMsg>, ests: seq<nat>,
                 bySession: map<int, seq<nat>>, i: nat, sid: int)
    requires Within(ests, |n4|) && i < |n4| && Files(tunnels, n4, ests, bySession)
    requires Hits(tunnels, n4[i]) == {sid}
    ensures Files(tunnels, n4, ests + [i], bySession[sid := (if sid in bySession then bySession[sid] else []) + [i]])
  {
    hide Anchored, Hits;
    forall other {:trigger Anchored(tunnels, n4, ests + [i], other)}
      ensures Anchored(tunnels, n4, ests + [i], other) ==
              Anchored(tunnels, n4, ests, other) + if other == sid then [i] else []
    {
      AnchoredAppend(tunnels, n4, ests, i, other);
      assert other in {sid} <==> other == sid;
    }
  }

  lemma FilesNone(tunnels: map<int, set<Tunnel>>, n4: seq<Pfcp.PfcpMsg>, ests: seq<nat>,
                  bySession: map<int, seq<nat>>, i: nat)
    requires Within(ests, |n4|) && i < |n4| && Files(tunnels, n4, ests, bySession)
    requires |Hits(tunnels, n4[i])| != 1
    ensures Files(tunnels, n4, ests + [i], bySession)
  {
    hide Anchored, Hits;
    forall other {:trigger Anchored(tunnels, n4, ests + [i], other)}
      ensures Anchored(tunnels, n4, ests + [i], other) == Anchored(tunnels, n4, ests, other)
    {
      AnchoredAppend(tunnels, n4, ests, i, other);
      assert |{other}| == 1;
    }
  }

  method AnchorResponses(tunnels: map<int, set<Tunnel>>, n4: seq<Pfcp.PfcpMsg>, ests: seq<nat>)
    returns (bySession: map<int, seq<nat>>)
    requires Within(ests, |n4|)
    ensures Files(tunnels, n4, ests, bySession)
  {
    hide Files, Hits;
    bySession := map[];
    NothingFiled(tunnels, n4);
    assert ests[..0] == [];
    for i := 0 to |ests|
      invariant Files(tunnels, n4, ests[..i], bySession)
    {
      TakeSnoc(ests, i);
      var hits := Hits(tunnels, n4[ests[i]]);
      if |hits| == 1 {
        Singleton(hits);
        var sid :| sid in hits;
        assert hits == {sid};
        FilesOne(tunnels, n4, ests[..i], bySession, ests[i], sid);
        bySession := bySession[sid := (if sid in bySession then bySession[sid] else []) + [ests[i]]];
      } else {
        FilesNone(tunnels, n4, ests[..i], bySession, ests[i]);
      }
    }
    assert ests[..|ests|] == ests;
  }

  lemma NothingFiled(tunnels: map<int, set<Tunnel>>, n4: seq<Pfcp.PfcpMsg>)
    ensures Files(tunnels, n4, [], map[])
  {
    AnchoredNothing(tunnels, n4);
  }

  method CrossPlaneKpis(flows: seq<FlowView>, j: Joined)
    returns (sbiToN4: Option<real>, n4ToN2: Option<real>, sbiToN2: Option<real>, ghost legs: seq<seq<Legs>>)
    requires j.Valid()
    ensures |legs| == |flows| && forall i :: 0 <= i < |flows| ==> HasFlow(flows[i], j, legs[i])
    ensures IsMean(sbiToN4, Latencies(Flatten(legs), SbiToN4))
    ensures IsMean(n4ToN2, Latencies(Flatten(legs), N4ToN2))
    ensures IsMean(sbiToN2, Latencies(Flatten(legs), SbiToN2))
    ensures Flatten(legs) == AllLegs(flows, j)
    ensures sbiToN4 == Mean(Samples(AllLegs(flows, j), SbiToN4))
    ensures n4ToN2 == Mean(Samples(AllLegs(flows, j), N4ToN2))
    ensures sbiToN2 == Mean(Samples(AllLegs(flows, j), SbiToN2))
    ensures (forall l :: l in AllLegs(flows, j) ==> Observed(l) != 2) ==> AddUp(sbiToN4, n4ToN2, sbiToN2)
  {
    hide Samples, Mean, AllLegs, HasFlow, IsMean, Latencies, LegsByFlow, Flatten, FlowLegs;
    var a, b, c := [], [], [];
    NoLegs(flows, j);
    ghost var done: seq<Legs> := [];
    for i := 0 to |flows|
      invariant done == AllLegs(flows[..i], j)
      invariant a == Samples(done, SbiToN4) && b == Samples(done, N4ToN2) && c == Samples(done, SbiToN2)
    {
      AllLegsAppend(flows, i, j);
      a, b, c := AddFlow(flows[i], j, a, b, c, done);
      done := done + FlowLegs(flows[i], j);
    }
    assert flows[..|flows|] == flows;
    sbiToN4, n4ToN2, sbiToN2, legs := Mean(a), Mean(b), Mean(c), LegsByFlow(flows, j);
    AllLegsMean(flows, j);
    MeanIs(done, SbiToN4);
    MeanIs(done, N4ToN2);
    MeanIs(done, SbiToN2);
    LegsCloseUp(flows, j);
  }

  /** One flow's sessions add their samples to the three lists. */
  method AddFlow(f: FlowView, j: Joined, a: seq<real>, b: seq<real>, c: seq<real>, ghost before: seq<Legs>)
    returns (a': seq<real>, b': seq<real>, c': seq<real>)
    requires j.Valid()
    requires a == Samples(before, SbiToN4) && b == Samples(before, N4ToN2) && c == Samples(before, SbiToN2)
    ensures var after := before + FlowLegs(f, j);
            a' == Samples(after, SbiToN4) && b' == Samples(after, N4ToN2) && c' == Samples(after, SbiToN2)
  {
    hide Named, EstRefs, CreateRefs, TunnelsById, TimesById, SessionIds, Anchored, SessionLegs, UnanchoredLegs, Samples,
         Append, Ascending, Hits;
    var reqs, rsps := Named(f.messages, PduSetupRequest), Named(f.messages, PduSetupResponse);
    var ests, creates := EstRefs(j.N4Of(f), j.n4), CreateRefs(j.SbiOf(f), j.sbi);
    var tunnels, times := SessionAnchors(reqs, rsps);
    var ids := SessionIds(tunnels, times, j.sbi, creates);
    if ids == {} {
      var alone := UnanchoredLegs(j.n4, ests, j.sbi, creates, rsps);
      SamplesAppend(before, alone);
      return Append(a, alone, SbiToN4), Append(b, alone, N4ToN2), Append(c, alone, SbiToN2);
    }
    a', b', c' := AddSessions(j, tunnels, times, ests, creates, Ascending(ids), a, b, c, before);
  }

  method AddSessions(j: Joined, tunnels: map<int, set<Tunnel>>, times: map<int, seq<real>>, ests: seq<nat>,
                     creates: seq<nat>, order: seq<int>, a: seq<real>, b: seq<real>, c: seq<real>,
                     ghost before: seq<Legs>)
    returns (a': seq<real>, b': seq<real>, c': seq<real>)
    requires Within(ests, |j.n4|) && Within(creates, |j.sbi|)
    requires a == Samples(before, SbiToN4) && b == Samples(before, N4ToN2) && c == Samples(before, SbiToN2)
    ensures var after := before + LegsOf(j, tunnels, times, ests, creates, order);
            a' == Samples(after, SbiToN4) && b' == Samples(after, N4ToN2) && c' == Samples(after, SbiToN2)
  {
    hide Anchored, SessionLegs, Samples, Append, Hits, Files;
    var bySession := AnchorResponses(tunnels, j.n4, ests);
    ghost var own := LegsOf(j, tunnels, times, ests, creates, order);
    a', b', c' := a, b, c;
    assert before + own[..0] == before;
    for s := 0 to |order|
      invariant a' == Samples(before + own[..s], SbiToN4) && b' == Samples(before + own[..s], N4ToN2)
      invariant c' == Samples(before + own[..s], SbiToN2)
    {
      var one := OneSession(bySession, tunnels, times, j, ests, creates, order[s]);
      SamplesAppend(before + own[..s], one);
      assert before + own[..s] + [one] == before + own[..s + 1];
      a', b', c' := Append(a', one, SbiToN4), Append(b', one, N4ToN2), Append(c', one, SbiToN2);
    }
    assert own[..|order|] == own;
  }

  lemma NoLegs(flows: seq<FlowView>, j: Joined)
    requires j.Valid()
    ensures AllLegs(flows[..0], j) == [] && forall k :: Samples([], k) == []
  {
  }

  lemma AllLegsAppend(flows: seq<FlowView>, i: nat, j: Joined)
    requires j.Valid() && i < |flows|
    ensures AllLegs(flows[..i + 1], j) == AllLegs(flows[..i], j) + FlowLegs(flows[i], j)
  {
    TakeSnoc(flows, i);
  }

  function Append(xs: seq<real>, l: Legs, k: Kpi): seq<real> {
    if Sample(l, k).Some? then xs + [Sample(l, k).value] else xs
  }

  lemma SamplesAppend(ls: seq<Legs>, l: Legs)
    ensures forall k :: Samples(ls + [l], k) == Append(Samples(ls, k), l, k)
  {
    assert (ls + [l])[..|ls|] == ls;
  }

  method OneSession(bySession: map<int, seq<nat>>, ghost tunnels: map<int, set<Tunnel>>, times: map<int, seq<real>>,
                    j: Joined, ghost ests: seq<nat>, creates: seq<nat>, sid: int)
    returns (legs: Legs)
    requires Within(ests, |j.n4|) && Within(creates, |j.sbi|)
    requires Files(tunnels, j.n4, ests, bySession)
    ensures legs == SessionLegs(tunnels, times, j.n4, ests, j.sbi, creates, sid)
  {
    var est := Sole(if sid in bySession then bySession[sid] else []);
    var cs;
    if est.Some? {
      cs := CreatesFor(j.sbi, creates, Some(sid), Some(j.n4[est.value].dstIp));
    } else {
      cs := CreatesFor(j.sbi, creates, Some(sid), None);
    }
    var create := Sole(cs);
    var setup := Sole(if sid in times then times[sid] else []);
    legs := Legs(if create.Some? then Some(j.sbi[create.value].ts) else None,
                 if est.Some? then Some(j.n4[est.value].ts) else None, setup);
  }

  // ----- What the samples mean -----

  /** Two of a session's three latencies give the third: the two parts add up to the whole. */
  ghost predicate ClosesUp(l: Legs) {
    var first, second, whole := Sample(l, SbiToN4), Sample(l, N4ToN2), Sample(l, SbiToN2);
    && (first.Some? && second.Some? ==> whole == Some(first.value + second.value))
    && (first.Some? && whole.Some? ==> second == Some(whole.value - first.value))
    && (second.Some? && whole.Some? ==> first == Some(whole.value - second.value))
  }

  /** How many of the three legs of a session were observed. */
  ghost function Observed(l: Legs): nat {
    (if l.create.Some? then 1 else 0) + (if l.est.Some? then 1 else 0) + (if l.setup.Some? then 1 else 0)
  }

  ghost predicate AddUp(first: Option<real>, second: Option<real>, whole: Option<real>) {
    if whole.None? then first.None? && second.None?
    else first.Some? && second.Some? && whole.value == first.value + second.value
  }

  /** Every session of every flow closes up. A session feeds all three lists or none exactly when not just two of
      its legs were observed, and when that holds of every session, the means of the run add. */
  lemma LegsCloseUp(flows: seq<FlowView>, j: Joined)
    requires j.Valid()
    ensures var ls := AllLegs(flows, j);
            && (forall l :: l in ls ==> ClosesUp(l) && (FeedsAllOrNone(l) <==> Observed(l) != 2))
            && ((forall l :: l in ls ==> Observed(l) != 2) ==>
                  AddUp(Mean(Samples(ls, SbiToN4)), Mean(Samples(ls, N4ToN2)), Mean(Samples(ls, SbiToN2))))
  {
    hide *;
    var ls := AllLegs(flows, j);
    forall l | l in ls
      ensures ClosesUp(l) && (FeedsAllOrNone(l) <==> Observed(l) != 2)
    {
      OneCloses(l);
    }
    if forall l :: l in ls ==> Observed(l) != 2 {
      FeedSame(ls);
      MeansAdd(ls);
    }
  }

  lemma OneCloses(l: Legs)
    ensures ClosesUp(l) && (FeedsAllOrNone(l) <==> Observed(l) != 2)
  {
  }

  lemma FeedSame(ls: seq<Legs>)
    requires forall l :: l in ls ==> FeedsAllOrNone(l)
    ensures SameSessions(ls)
  {
  }

  ghost predicate SameSessions(ls: seq<Legs>) {
    forall l :: l in ls ==> FeedsAllOrNone(l)
  }

  ghost predicate FeedsAllOrNone(l: Legs) {
    && (Sample(l, SbiToN4).Some? <==> Sample(l, N4ToN2).Some?)
    && (Sample(l, SbiToN4).Some? <==> Sample(l, SbiToN2).Some?)
  }

  lemma {:induction false} SumsAdd(ls: seq<Legs>)
    requires SameSessions(ls)
    ensures |Samples(ls, SbiToN4)| == |Samples(ls, N4ToN2)| == |Samples(ls, SbiToN2)|
    ensures Sum(Samples(ls, SbiToN2)) == Sum(Samples(ls, SbiToN4)) + Sum(Samples(ls, N4ToN2))
  {
    if ls != [] {
      var p, l := ls[..|ls| - 1], ls[|ls| - 1];
      assert l in ls && forall x :: x in p ==> x in ls;
      SumsAdd(p);
      assert ls == p + [l];
      SamplesAppend(p, l);
      SumAppend(Samples(p, SbiToN4), l, SbiToN4);
      SumAppend(Samples(p, N4ToN2), l, N4ToN2);
      SumAppend(Samples(p, SbiToN2), l, SbiToN2);
    }
  }

  lemma SumAppend(xs: seq<real>, l: Legs, k: Kpi)
    ensures Sum(Append(xs, l, k)) == Sum(xs) + if Sample(l, k).Some? then Sample(l, k).value else 0.0
  {
    if Sample(l, k).Some? {
      assert (xs + [Sample(l, k).value])[..|xs|] == xs;
    }
  }

  /** When the same sessions feed all three KPIs, the means add. */
  lemma MeansAdd(ls: seq<Legs>)
    requires SameSessions(ls)
    ensures AddUp(Mean(Samples(ls, SbiToN4)), Mean(Samples(ls, N4ToN2)), Mean(Samples(ls, SbiToN2)))
  {
    SumsAdd(ls);
    var n := |Samples(ls, SbiToN4)|;
    if n > 0 {
      AddOver(Sum(Samples(ls, SbiToN4)), Sum(Samples(ls, N4ToN2)), n as real);
    }
    hide Samples, Sum;
  }

  lemma AddOver(x: real, y: real, n: real)
    requires n != 0.0
    ensures (x + y) / n == x / n + y / n
  {
  }

  ghost predicate DistinctIds(flows: seq<FlowView>) {
    forall a, b :: 0 <= a < b < |flows| ==> flows[a].flowId != flows[b].flowId
  }

  /** Message number i is an establishment response filed under session sid of the flow. */
  ghost predicate Anchors(f: FlowView, j: Joined, sid: int, i: nat)
    requires j.Valid()
  {
    i in Anchored(TunnelsById(Named(f.messages, PduSetupRequest)), j.n4, EstRefs(j.N4Of(f), j.n4), sid)
  }

  /** Over all flows, an establishment response anchors at most one session. */
  lemma ResponseAnchorsOneSession(links: map<nat, Option<nat>>, j: Joined, flows: seq<FlowView>,
                                  a: nat, b: nat, sid: int, other: int, i: nat)
    requires j.Valid() && Exact(links, j.n4Refs) && DistinctIds(flows) && a < |flows| && b < |flows|
    ensures Anchors(flows[a], j, sid, i) && Anchors(flows[b], j, other, i) ==> a == b && sid == other
  {
    hide Named, TunnelsById, EstRefs, Anchored, Hits, Exact, Joined.N4Of;
    if Anchors(flows[a], j, sid, i) && Anchors(flows[b], j, other, i) {
      AnchoredRef(j, flows[a], TunnelsById(Named(flows[a].messages, PduSetupRequest)), sid, i);
      AnchoredRef(j, flows[b], TunnelsById(Named(flows[b].messages, PduSetupRequest)), other, i);
      RefsAreDisjoint(links, j.n4Refs, flows[a].flowId, flows[b].flowId, i);
      assert a == b;
      assert sid in {other};
    }
  }

  /** The flow builder numbers its flows, so the condition holds of its output. */
  lemma BuiltFlowsAreDistinct(decode: Decoder, msgs: seq<NgapMsg>)
    ensures DistinctIds(FlowsOf(decode, msgs))
  {
    hide Keys, FlowsOf;
  }

  lemma RefsAreDisjoint(links: map<nat, Option<nat>>, refs: map<nat, seq<nat>>, id: nat, other: nat, i: nat)
    requires Exact(links, refs) && id in refs && other in refs && i in refs[id] && i in refs[other]
    ensures id == other
  {
    assert links[i] == Some(id) && links[i] == Some(other);
  }

  lemma AnchoredRef(j: Joined, f: FlowView, tunnels: map<int, set<Tunnel>>, sid: int, i: nat)
    requires j.Valid() && i in Anchored(tunnels, j.n4, EstRefs(j.N4Of(f), j.n4), sid)
    ensures i < |j.n4| && Hits(tunnels, j.n4[i]) == {sid}
    ensures f.flowId in j.n4Refs && i in j.n4Refs[f.flowId]
  {
    var ests := EstRefs(j.N4Of(f), j.n4);
    var r := Anchored(tunnels, j.n4, ests, sid);
    var a :| 0 <= a < |r| && r[a] == i;
    assert i in ests;
    var b :| 0 <= b < |ests| && ests[b] == i;
    assert i in j.N4Of(f);
    hide *;
  }

  // ----- The sessions, stated on the messages -----

  /** A setup request of the flow declares the tunnel for the session. */
  ghost predicate Declares(tr: seq<Entry>, sid: int, t: Tunnel) {
    exists k :: 0 <= k < |tr| && DeclaresAt(tr[k].0, sid, t)
  }

  ghost predicate DeclaresAt(m: NgapMsg, sid: int, t: Tunnel) {
    m.name == PduSetupRequest && sid in m.reqSessionTunnels && t in m.reqSessionTunnels[sid]
  }

  /** A setup request or response of the flow lists the session. */
  ghost predicate Lists(tr: seq<Entry>, sid: int) {
    exists k :: 0 <= k < |tr| && ListsAt(tr[k].0, sid)
  }

  ghost predicate ListsAt(m: NgapMsg, sid: int) {
    || (m.name == PduSetupRequest && sid in m.reqSessionTunnels)
    || (m.name == PduSetupResponse && sid in m.rspSessionCounts)
  }

  ghost predicate Establishes(m: Pfcp.PfcpMsg) {
    m.name == Some("PFCP Session Establishment Response")
  }

  ghost predicate Creates(m: Sbi.SbiMsg) {
    m.direction == Sbi.Request && m.httpMethod == Some("POST") && m.path == Some("/nsmf-pdusession/v1/sm-contexts")
  }

  /** The message names a tunnel that the flow declares for the session. */
  ghost predicate NamesTunnel(m: Pfcp.PfcpMsg, tr: seq<Entry>, sid: int) {
    exists t :: t in m.fTeids && Declares(tr, sid, t)
  }

  ghost predicate NamesOnly(m: Pfcp.PfcpMsg, tr: seq<Entry>, sid: int) {
    NamesTunnel(m, tr, sid) && forall other :: NamesTunnel(m, tr, other) ==> other == sid
  }

  /** Of the listed messages, the one at position a alone is wanted. */
  ghost predicate IsOnly(refs: seq<nat>, wanted: set<nat>, a: nat) {
    && a < |refs| && refs[a] in wanted
    && forall b :: 0 <= b < |refs| && refs[b] in wanted ==> b == a
  }

  ghost predicate OnlyOne(refs: seq<nat>, wanted: set<nat>, i: Option<nat>) {
    if i.Some? then exists a: nat :: IsOnly(refs, wanted, a) && refs[a] == i.value
    else forall a: nat :: !IsOnly(refs, wanted, a)
  }

  /** How many items for the session the message holds, as a setup response. */
  ghost function Items(m: NgapMsg, sid: int): nat {
    if m.name == PduSetupResponse && sid in m.rspSessionCounts then m.rspSessionCounts[sid] else 0
  }

  /** The setup leg: the flow's setup responses hold one item for the session, in the message sent at ts. */
  ghost predicate OnlyItem(tr: seq<Entry>, sid: int, ts: Option<real>) {
    if ts.Some? then exists k: nat :: IsOnlyItem(tr, sid, k) && tr[k].0.ts == ts.value
    else forall k: nat :: !IsOnlyItem(tr, sid, k)
  }

  ghost predicate IsOnlyItem(tr: seq<Entry>, sid: int, k: nat) {
    && k < |tr| && Items(tr[k].0, sid) == 1
    && forall l :: 0 <= l < |tr| && l != k ==> Items(tr[l].0, sid) == 0
  }

  ghost predicate IsOnlyResponse(tr: seq<Entry>, k: nat) {
    && k < |tr| && tr[k].0.name == PduSetupResponse
    && forall l :: 0 <= l < |tr| && tr[l].0.name == PduSetupResponse ==> l == k
  }

  ghost predicate OnlyResponse(tr: seq<Entry>, ts: Option<real>) {
    if ts.Some? then exists k: nat :: IsOnlyResponse(tr, k) && tr[k].0.ts == ts.value
    else forall k: nat :: !IsOnlyResponse(tr, k)
  }

  ghost function RefsOf(refs: map<nat, seq<nat>>, f: FlowView): seq<nat> {
    if f.flowId in refs then refs[f.flowId] else []
  }

  /** The flow's sm-contexts creates with the session id, if one is asked for, that reached the SMF, if one is. */
  ghost function CreatesOf(f: FlowView, j: Joined, sid: Option<int>, smf: Option<Option<string>>): set<nat> {
    set i | i in RefsOf(j.sbiRefs, f) && i < |j.sbi| && Creates(j.sbi[i])
            && (sid.Some? ==> j.sbi[i].pduSessionId == sid) && (smf.Some? ==> j.sbi[i].dstIp == smf.value)
  }

  /** The legs of a session: the only response that establishes it and no other, the only create for it, by the SMF of
      that response if there is one, and the only setup item. */
  ghost predicate IsSession(f: FlowView, j: Joined, sid: int, l: Legs) {
    OnlyItem(f.messages, sid, l.setup) && exists est, create :: HasLegs(f, j, sid, est, create, l)
  }

  ghost predicate HasLegs(f: FlowView, j: Joined, sid: int, est: Option<nat>, create: Option<nat>, l: Legs) {
    && OnlyOne(RefsOf(j.n4Refs, f), EstablishersOf(f, j, Some(sid)), est) && (est.Some? ==> est.value < |j.n4|)
    && OnlyOne(RefsOf(j.sbiRefs, f),
               CreatesOf(f, j, Some(sid), if est.Some? then Some(j.n4[est.value].dstIp) else None), create)
    && AreLegs(j, est, create, l)
  }

  ghost predicate AreLegs(j: Joined, est: Option<nat>, create: Option<nat>, l: Legs) {
    && (est.Some? ==> est.value < |j.n4|) && (create.Some? ==> create.value < |j.sbi|)
    && l.est == (if est.Some? then Some(j.n4[est.value].ts) else None)
    && l.create == if create.Some? then Some(j.sbi[create.value].ts) else None
  }

  /** The flow's establishment responses, or those that name the session and no other. */
  ghost function EstablishersOf(f: FlowView, j: Joined, sid: Option<int>): set<nat> {
    set i | i in RefsOf(j.n4Refs, f) && i < |j.n4| && Establishes(j.n4[i])
            && (sid.Some? ==> NamesOnly(j.n4[i], f.messages, sid.value))
  }

  /** The legs of a flow without sessions: of each kind of message, the flow's only one. */
  ghost predicate IsAlone(f: FlowView, j: Joined, l: Legs) {
    OnlyResponse(f.messages, l.setup) && exists est, create :: HasLegsAlone(f, j, est, create, l)
  }

  ghost predicate HasLegsAlone(f: FlowView, j: Joined, est: Option<nat>, create: Option<nat>, l: Legs) {
    && OnlyOne(RefsOf(j.n4Refs, f), EstablishersOf(f, j, None), est) && (est.Some? ==> est.value < |j.n4|)
    && OnlyOne(RefsOf(j.sbiRefs, f),
               CreatesOf(f, j, None, if est.Some? && j.n4[est.value].dstIp.Some? then Some(j.n4[est.value].dstIp)
                                     else None), create)
    && AreLegs(j, est, create, l)
  }

  /** The sessions of a flow: those its setup messages list and those its creates name. */
  ghost predicate HasSession(f: FlowView, j: Joined, sid: int) {
    || Lists(f.messages, sid)
    || exists i :: i in CreatesOf(f, j, None, None) && j.sbi[i].pduSessionId == Some(sid)
  }

  ghost predicate IsFlow(f: FlowView, j: Joined, ids: seq<int>, ls: seq<Legs>) {
    && (forall sid :: sid in ids <==> HasSession(f, j, sid)) && (forall a, b :: 0 <= a < b < |ids| ==> ids[a] < ids[b])
    && if ids == [] then |ls| == 1 && IsAlone(f, j, ls[0])
       else |ls| == |ids| && forall k :: 0 <= k < |ids| ==> IsSession(f, j, ids[k], ls[k])
  }

  // ----- The specification agrees -----

  ghost function Where(refs: seq<nat>, wanted: set<nat>): seq<nat> {
    if refs == [] then []
    else Where(refs[..|refs| - 1], wanted) + if refs[|refs| - 1] in wanted then [refs[|refs| - 1]] else []
  }

  lemma {:induction false} WhereNone(refs: seq<nat>, wanted: set<nat>)
    ensures Where(refs, wanted) == [] <==> forall a :: 0 <= a < |refs| ==> refs[a] !in wanted
  {
    if refs != [] {
      WhereNone(refs[..|refs| - 1], wanted);
    }
  }

  lemma {:induction false} SoleIsOnly(refs: seq<nat>, wanted: set<nat>)
    ensures OnlyOne(refs, wanted, Sole(Where(refs, wanted)))
  {
    if refs != [] {
      var p, last := refs[..|refs| - 1], |refs| - 1;
      SoleIsOnly(p, wanted);
      WhereNone(p, wanted);
      forall a: nat | a < last
        ensures IsOnly(refs, wanted, a) <==> IsOnly(p, wanted, a) && refs[last] !in wanted
      {
      }
      assert IsOnly(refs, wanted, last) <==> refs[last] in wanted && Where(p, wanted) == [];
    }
  }

  lemma {:induction false} EstRefsAreWhere(f: FlowView, j: Joined, refs: seq<nat>)
    requires Within(refs, |j.n4|) && forall i :: i in refs ==> i in RefsOf(j.n4Refs, f)
    ensures EstRefs(refs, j.n4) == Where(refs, EstablishersOf(f, j, None))
  {
    if refs != [] {
      EstRefsAreWhere(f, j, refs[..|refs| - 1]);
    }
  }

  lemma {:induction false} CreateRefsAre(f: FlowView, j: Joined, refs: seq<nat>, sid: Option<int>,
                                         smf: Option<Option<string>>)
    requires Within(refs, |j.sbi|) && forall i :: i in refs ==> i in RefsOf(j.sbiRefs, f)
    ensures CreatesFor(j.sbi, CreateRefs(refs, j.sbi), sid, smf) == Where(refs, CreatesOf(f, j, sid, smf))
  {
    if refs != [] {
      var p, i := refs[..|refs| - 1], refs[|refs| - 1];
      CreateRefsAre(f, j, p, sid, smf);
      var creates := CreateRefs(p, j.sbi);
      assert CreateRefs(refs, j.sbi) == creates + if IsCreate(j.sbi[i]) then [i] else [];
      CreatesAppend(j.sbi, creates, i, sid, smf);
      assert creates + [] == creates && i in RefsOf(j.sbiRefs, f);
      hide CreatesFor, CreateRefs;
    }
  }

  lemma CreatesAppend(sbi: seq<Sbi.SbiMsg>, creates: seq<nat>, i: nat, sid: Option<int>, smf: Option<Option<string>>)
    requires Within(creates, |sbi|) && i < |sbi|
    ensures CreatesFor(sbi, creates + [i], sid, smf) ==
            CreatesFor(sbi, creates, sid, smf)
            + if (sid.None? || sbi[i].pduSessionId == sid) && (smf.None? || sbi[i].dstIp == smf.value) then [i] else []
  {
    assert (creates + [i])[..|creates|] == creates;
  }

  lemma TunnelsSnoc(reqs: seq<NgapMsg>, m: NgapMsg)
    ensures var before, after := TunnelsById(reqs), TunnelsById(reqs + [m]);
            forall sid ::
              && (sid in after <==> sid in before || sid in m.reqSessionTunnels)
              && (sid in after ==>
                    after[sid] == (if sid in before then before[sid] else {})
                                  + if sid in m.reqSessionTunnels then set t | t in m.reqSessionTunnels[sid] else {})
  {
    assert (reqs + [m])[..|reqs|] == reqs;
  }

  ghost predicate Requests(tr: seq<Entry>, sid: int) {
    exists k :: 0 <= k < |tr| && RequestsAt(tr[k].0, sid)
  }

  ghost predicate RequestsAt(m: NgapMsg, sid: int) {
    m.name == PduSetupRequest && sid in m.reqSessionTunnels
  }

  lemma {:induction false} TunnelsMean(tr: seq<Entry>)
    ensures var tunnels := TunnelsById(Named(tr, PduSetupRequest));
            && (forall sid :: sid in tunnels <==> Requests(tr, sid))
            && forall sid, t :: sid in tunnels && t in tunnels[sid] <==> Declares(tr, sid, t)
  {
    if tr != [] {
      var p, e := tr[..|tr| - 1], tr[|tr| - 1];
      TunnelsMean(p);
      DeclaresSnoc(p, e);
      assert tr == p + [e];
      TunnelsSnoc(Named(p, PduSetupRequest), e.0);
      assert Named(tr, PduSetupRequest)
             == if e.0.name == PduSetupRequest then Named(p, PduSetupRequest) + [e.0] else Named(p, PduSetupRequest);
      hide TunnelsById, Named, Requests, Declares;
    }
  }

  lemma DeclaresSnoc(p: seq<Entry>, e: Entry)
    ensures forall sid, t :: Declares(p + [e], sid, t) <==> Declares(p, sid, t) || DeclaresAt(e.0, sid, t)
    ensures forall sid :: Requests(p + [e], sid) <==> Requests(p, sid) || RequestsAt(e.0, sid)
  {
    var tr := p + [e];
    assert tr[|p|] == e && forall k :: 0 <= k < |p| ==> tr[k] == p[k];
    hide DeclaresAt, RequestsAt;
    forall sid, t
      ensures Declares(tr, sid, t) <==> Declares(p, sid, t) || DeclaresAt(e.0, sid, t)
    {
      assert DeclaresAt(e.0, sid, t) ==> DeclaresAt(tr[|p|].0, sid, t);
      if k :| 0 <= k < |p| && DeclaresAt(p[k].0, sid, t) {
        assert DeclaresAt(tr[k].0, sid, t);
      }
    }
    forall sid
      ensures Requests(tr, sid) <==> Requests(p, sid) || RequestsAt(e.0, sid)
    {
      assert RequestsAt(e.0, sid) ==> RequestsAt(tr[|p|].0, sid);
      if k :| 0 <= k < |p| && RequestsAt(p[k].0, sid) {
        assert RequestsAt(tr[k].0, sid);
      }
    }
  }

  lemma {:induction false} AnchoredAreWhere(f: FlowView, j: Joined, refs: seq<nat>, tunnels: map<int, set<Tunnel>>,
                                            sid: int)
    requires Within(refs, |j.n4|) && forall i :: i in refs ==> i in RefsOf(j.n4Refs, f)
    requires tunnels == TunnelsById(Named(f.messages, PduSetupRequest))
    ensures Anchored(tunnels, j.n4, EstRefs(refs, j.n4), sid) == Where(refs, EstablishersOf(f, j, Some(sid)))
  {
    hide Hits, Anchored, NamesOnly, TunnelsById, Named;
    if refs == [] {
      AnchoredNothing(tunnels, j.n4);
    } else {
      var p, i := refs[..|refs| - 1], refs[|refs| - 1];
      AnchoredAreWhere(f, j, p, tunnels, sid);
      HitsMean(f.messages, tunnels, j.n4[i], sid);
      var ests := EstRefs(p, j.n4);
      AnchoredAppend(tunnels, j.n4, ests, i, sid);
      assert EstRefs(refs, j.n4) == if IsEstResponse(j.n4[i]) then ests + [i] else ests;
      assert i in RefsOf(j.n4Refs, f);
      hide EstRefs;
    }
  }

  lemma HitsMean(tr: seq<Entry>, tunnels: map<int, set<Tunnel>>, m: Pfcp.PfcpMsg, sid: int)
    requires tunnels == TunnelsById(Named(tr, PduSetupRequest))
    ensures Hits(tunnels, m) == {sid} <==> NamesOnly(m, tr, sid)
  {
    TunnelsMean(tr);
    hide TunnelsById, Named, Declares;
    var hits := Hits(tunnels, m);
    forall s
      ensures s in hits <==> NamesTunnel(m, tr, s)
    {
      if t :| t in m.fTeids && Declares(tr, s, t) {
        assert s in tunnels && t in tunnels[s];
      }
    }
    hide Hits, NamesTunnel;
    IsSingleton(hits, sid);
  }

  lemma IsSingleton(s: set<int>, x: int)
    ensures s == {x} <==> x in s && forall y :: y in s ==> y == x
  {
    if x in s && forall y :: y in s ==> y == x {
      assert s <= {x};
    }
  }

  ghost function TimesFor(tr: seq<Entry>, sid: int): seq<real> {
    var times := TimesById(Named(tr, PduSetupResponse));
    if sid in times then times[sid] else []
  }

  lemma TimesSnoc(p: seq<Entry>, e: Entry, sid: int)
    ensures TimesFor(p + [e], sid) == TimesFor(p, sid) + Repeat(e.0.ts, Items(e.0, sid))
    ensures sid in TimesById(Named(p + [e], PduSetupResponse)) <==>
            sid in TimesById(Named(p, PduSetupResponse))
            || (e.0.name == PduSetupResponse && sid in e.0.rspSessionCounts)
  {
    assert (p + [e])[..|p|] == p;
    var rsps := Named(p, PduSetupResponse);
    if e.0.name == PduSetupResponse {
      assert (rsps + [e.0])[..|rsps|] == rsps;
    } else {
      assert rsps + [] == rsps;
    }
  }

  /** Whatever a session's list of times, its sole element is the only setup item. */
  lemma {:induction false} TimesMean(tr: seq<Entry>, sid: int)
    ensures TimesFor(tr, sid) == [] <==> forall k :: 0 <= k < |tr| ==> Items(tr[k].0, sid) == 0
    ensures OnlyItem(tr, sid, Sole(TimesFor(tr, sid)))
    ensures sid in TimesById(Named(tr, PduSetupResponse)) <==>
            exists k :: 0 <= k < |tr| && tr[k].0.name == PduSetupResponse && sid in tr[k].0.rspSessionCounts
  {
    hide TimesFor, Items, TimesById, Named, OnlyItem, Sole;
    if tr == [] {
      NoTimes(sid);
    } else {
      var p, e := tr[..|tr| - 1], tr[|tr| - 1];
      TimesMean(p, sid);
      TimesSnoc(p, e, sid);
      assert tr == p + [e];
      OnlyItemSnoc(p, e, sid, TimesFor(p, sid));
      assert forall k :: 0 <= k < |p| ==> tr[k] == p[k];
      assert tr[|p|] == e;
    }
  }

  lemma NoTimes(sid: int)
    ensures TimesFor([], sid) == [] && OnlyItem([], sid, Sole(TimesFor([], sid)))
    ensures sid !in TimesById(Named([], PduSetupResponse))
  {
  }

  lemma OnlyItemSnoc(p: seq<Entry>, e: Entry, sid: int, times: seq<real>)
    requires times == [] <==> forall k :: 0 <= k < |p| ==> Items(p[k].0, sid) == 0
    requires OnlyItem(p, sid, Sole(times))
    ensures OnlyItem(p + [e], sid, Sole(times + Repeat(e.0.ts, Items(e.0, sid))))
  {
    hide Items;
    var tr := p + [e];
    assert tr[|p|] == e && forall k :: 0 <= k < |p| ==> tr[k] == p[k];
    forall k: nat | k < |p|
      ensures IsOnlyItem(tr, sid, k) <==> IsOnlyItem(p, sid, k) && Items(e.0, sid) == 0
    {
      assert tr[k] == p[k];
    }
    assert IsOnlyItem(tr, sid, |p|) <==> Items(e.0, sid) == 1 && times == [];
  }

  lemma {:induction false} ResponsesMean(tr: seq<Entry>)
    ensures var rsps := Named(tr, PduSetupResponse);
            && (rsps == [] <==> forall k :: 0 <= k < |tr| ==> tr[k].0.name != PduSetupResponse)
            && OnlyResponse(tr, if |rsps| == 1 then Some(rsps[0].ts) else None)
  {
    if tr != [] {
      var p, e := tr[..|tr| - 1], tr[|tr| - 1];
      ResponsesMean(p);
      var rsps := Named(p, PduSetupResponse);
      forall k: nat | k < |p|
        ensures IsOnlyResponse(tr, k) <==> IsOnlyResponse(p, k) && e.0.name != PduSetupResponse
      {
        assert tr[|p|] == e;
      }
      assert IsOnlyResponse(tr, |p|) <==> e.0.name == PduSetupResponse && rsps == [];
    }
  }

  lemma SessionMeans(f: FlowView, j: Joined, tunnels: map<int, set<Tunnel>>, times: map<int, seq<real>>,
                     ests: seq<nat>, creates: seq<nat>, sid: int)
    requires j.Valid() && ests == EstRefs(j.N4Of(f), j.n4) && creates == CreateRefs(j.SbiOf(f), j.sbi)
    requires tunnels == TunnelsById(Named(f.messages, PduSetupRequest))
    requires times == TimesById(Named(f.messages, PduSetupResponse))
    ensures IsSession(f, j, sid, SessionLegs(tunnels, times, j.n4, ests, j.sbi, creates, sid))
  {
    hide OnlyItem, OnlyOne, Anchored, CreatesFor, EstRefs, CreateRefs, EstablishersOf, CreatesOf, TunnelsById,
         TimesById, Named, Where;
    var n4Refs, sbiRefs := j.N4Of(f), j.SbiOf(f);
    TimesMean(f.messages, sid);
    AnchoredAreWhere(f, j, n4Refs, tunnels, sid);
    var est := Sole(Anchored(tunnels, j.n4, ests, sid));
    var smf := if est.Some? then Some(j.n4[est.value].dstIp) else None;
    CreateRefsAre(f, j, sbiRefs, Some(sid), smf);
    var create := Sole(CreatesFor(j.sbi, creates, Some(sid), smf));
    SoleIsOnly(n4Refs, EstablishersOf(f, j, Some(sid)));
    SoleIsOnly(sbiRefs, CreatesOf(f, j, Some(sid), smf));
    assert HasLegs(f, j, sid, est, create, SessionLegs(tunnels, times, j.n4, ests, j.sbi, creates, sid));
  }

  lemma AloneMeans(f: FlowView, j: Joined, ests: seq<nat>, creates: seq<nat>, rsps: seq<NgapMsg>)
    requires j.Valid() && ests == EstRefs(j.N4Of(f), j.n4) && creates == CreateRefs(j.SbiOf(f), j.sbi)
    requires rsps == Named(f.messages, PduSetupResponse)
    ensures IsAlone(f, j, UnanchoredLegs(j.n4, ests, j.sbi, creates, rsps))
  {
    hide OnlyResponse, OnlyOne, CreatesFor, EstRefs, CreateRefs, EstablishersOf, CreatesOf, Named, Where;
    var n4Refs, sbiRefs := j.N4Of(f), j.SbiOf(f);
    ResponsesMean(f.messages);
    EstRefsAreWhere(f, j, n4Refs);
    var est := Sole(ests);
    var smf := if est.Some? && j.n4[est.value].dstIp.Some? then Some(j.n4[est.value].dstIp) else None;
    CreateRefsAre(f, j, sbiRefs, None, smf);
    var create := Sole(CreatesFor(j.sbi, creates, None, smf));
    SoleIsOnly(n4Refs, EstablishersOf(f, j, None));
    SoleIsOnly(sbiRefs, CreatesOf(f, j, None, smf));
    assert HasLegsAlone(f, j, est, create, UnanchoredLegs(j.n4, ests, j.sbi, creates, rsps));
  }

  lemma {:induction false} WhereMembers(refs: seq<nat>, wanted: set<nat>)
    ensures forall i :: i in Where(refs, wanted) <==> i in refs && i in wanted
  {
    if refs != [] {
      WhereMembers(refs[..|refs| - 1], wanted);
    }
  }

  lemma {:induction false} AllCreates(sbi: seq<Sbi.SbiMsg>, creates: seq<nat>)
    requires Within(creates, |sbi|)
    ensures CreatesFor(sbi, creates, None, None) == creates
  {
    hide CreatesFor;
    if creates == [] {
      NoCreates(sbi);
    } else {
      var p, i := creates[..|creates| - 1], creates[|creates| - 1];
      AllCreates(sbi, p);
      CreatesAppend(sbi, p, i, None, None);
      assert creates == p + [i];
    }
  }

  lemma NoCreates(sbi: seq<Sbi.SbiMsg>)
    ensures CreatesFor(sbi, [], None, None) == []
  {
  }

  lemma SessionsMean(f: FlowView, j: Joined, tunnels: map<int, set<Tunnel>>, times: map<int, seq<real>>,
                     creates: seq<nat>)
    requires j.Valid() && creates == CreateRefs(j.SbiOf(f), j.sbi)
    requires tunnels == TunnelsById(Named(f.messages, PduSetupRequest))
    requires times == TimesById(Named(f.messages, PduSetupResponse))
    ensures forall sid :: sid in SessionIds(tunnels, times, j.sbi, creates) <==> HasSession(f, j, sid)
  {
    hide Named, TunnelsById, TimesById, CreateRefs, Where, CreatesFor, CreatesOf, OnlyItem, TimesFor;
    AllCreates(j.sbi, creates);
    CreateRefsAre(f, j, j.SbiOf(f), None, None);
    WhereMembers(j.SbiOf(f), CreatesOf(f, j, None, None));
    TunnelsMean(f.messages);
    CreatesAreRefs(f, j);
    forall sid
      ensures sid in SessionIds(tunnels, times, j.sbi, creates) <==> HasSession(f, j, sid)
    {
      TimesMean(f.messages, sid);
      ListedBy(f.messages, sid);
    }
  }

  lemma CreatesAreRefs(f: FlowView, j: Joined)
    requires j.Valid()
    ensures forall i :: i in CreatesOf(f, j, None, None) ==> i in j.SbiOf(f) && i < |j.sbi|
  {
  }

  lemma ListedBy(tr: seq<Entry>, sid: int)
    ensures Lists(tr, sid) <==>
            Requests(tr, sid)
            || exists k :: 0 <= k < |tr| && tr[k].0.name == PduSetupResponse && sid in tr[k].0.rspSessionCounts
  {
    if k :| 0 <= k < |tr| && RequestsAt(tr[k].0, sid) {
      assert ListsAt(tr[k].0, sid);
    }
    if k :| 0 <= k < |tr| && tr[k].0.name == PduSetupResponse && sid in tr[k].0.rspSessionCounts {
      assert ListsAt(tr[k].0, sid);
    }
    if k :| 0 <= k < |tr| && ListsAt(tr[k].0, sid) {
      assert RequestsAt(tr[k].0, sid) || (tr[k].0.name == PduSetupResponse && sid in tr[k].0.rspSessionCounts);
    }
  }

  /** The legs of a flow are those its messages show. */
  lemma FlowLegsMean(f: FlowView, j: Joined) returns (ids: seq<int>)
    requires j.Valid()
    ensures IsFlow(f, j, ids, FlowLegs(f, j))
  {
    hide IsSession, IsAlone, SessionLegs, UnanchoredLegs, SessionIds, HasSession, Named, TunnelsById, TimesById,
         EstRefs, CreateRefs, Ascending;
    var rsps := Named(f.messages, PduSetupResponse);
    var tunnels, times := TunnelsById(Named(f.messages, PduSetupRequest)), TimesById(rsps);
    var ests, creates := EstRefs(j.N4Of(f), j.n4), CreateRefs(j.SbiOf(f), j.sbi);
    var all := SessionIds(tunnels, times, j.sbi, creates);
    ids := Ascending(all);
    if all != {} {
      var x := Pick(all);
      assert x in ids;
    } else {
      AscendingNothing();
    }
    SessionsMean(f, j, tunnels, times, creates);
    AloneMeans(f, j, ests, creates, rsps);
    forall k | 0 <= k < |ids| && ids != []
      ensures IsSession(f, j, ids[k], FlowLegs(f, j)[k])
    {
      SessionMeans(f, j, tunnels, times, ests, creates, ids[k]);
    }
  }

  ghost predicate HasFlow(f: FlowView, j: Joined, ls: seq<Legs>) {
    exists ids :: IsFlow(f, j, ids, ls)
  }

  // ----- The means, stated on the legs -----

  /** In milliseconds, from the earlier leg to the later one, when the session has both. */
  ghost function LatencyOf(l: Legs, k: Kpi): seq<real> {
    match k
    case SbiToN4 => if l.create.Some? && l.est.Some? then [(l.est.value - l.create.value) * 1000.0] else []
    case N4ToN2 => if l.est.Some? && l.setup.Some? then [(l.setup.value - l.est.value) * 1000.0] else []
    case SbiToN2 => if l.create.Some? && l.setup.Some? then [(l.setup.value - l.create.value) * 1000.0] else []
  }

  ghost function Latencies(ls: seq<Legs>, k: Kpi): seq<real> {
    if ls == [] then [] else LatencyOf(ls[0], k) + Latencies(ls[1..], k)
  }

  ghost function Total(xs: seq<real>): real {
    if xs == [] then 0.0 else xs[0] + Total(xs[1..])
  }

  ghost predicate IsMean(mean: Option<real>, xs: seq<real>) {
    if xs == [] then mean == None else mean.Some? && mean.value * |xs| as real == Total(xs)
  }

  lemma {:induction false} TotalSnoc(xs: seq<real>, x: real)
    ensures Total(xs + [x]) == Total(xs) + x
  {
    if xs == [] {
      assert [x][1..] == [] && [] + [x] == [x];
    } else {
      TotalSnoc(xs[1..], x);
      assert (xs + [x])[1..] == xs[1..] + [x];
    }
  }

  lemma {:induction false} SumIsTotal(xs: seq<real>)
    ensures Sum(xs) == Total(xs)
  {
    if xs != [] {
      var p, x := xs[..|xs| - 1], xs[|xs| - 1];
      SumIsTotal(p);
      TotalSnoc(p, x);
      assert xs == p + [x];
    }
  }

  lemma {:induction false} LatenciesSnoc(ls: seq<Legs>, l: Legs, k: Kpi)
    ensures Latencies(ls + [l], k) == Latencies(ls, k) + LatencyOf(l, k)
  {
    hide LatencyOf;
    if ls == [] {
      assert [l][1..] == [] && [] + [l] == [l];
      assert LatencyOf(l, k) + [] == LatencyOf(l, k) == [] + LatencyOf(l, k);
    } else {
      LatenciesSnoc(ls[1..], l, k);
      assert (ls + [l])[1..] == ls[1..] + [l];
    }
  }

  lemma SampleIsLatency(l: Legs, k: Kpi)
    ensures LatencyOf(l, k) == if Sample(l, k).Some? then [Sample(l, k).value] else []
  {
  }

  lemma {:induction false} SamplesAreLatencies(ls: seq<Legs>, k: Kpi)
    ensures Samples(ls, k) == Latencies(ls, k)
  {
    if ls != [] {
      var p, l := ls[..|ls| - 1], ls[|ls| - 1];
      SamplesAreLatencies(p, k);
      LatenciesSnoc(p, l, k);
      SampleIsLatency(l, k);
      assert ls == p + [l];
    }
  }

  lemma MeanIs(ls: seq<Legs>, k: Kpi)
    ensures IsMean(Mean(Samples(ls, k)), Latencies(ls, k))
  {
    SamplesAreLatencies(ls, k);
    SumIsTotal(Samples(ls, k));
    hide Samples, Latencies, Sum, Total;
  }

  /** All legs, flow by flow. */
  ghost function LegsByFlow(flows: seq<FlowView>, j: Joined): seq<seq<Legs>>
    requires j.Valid()
  {
    if flows == [] then [] else LegsByFlow(flows[..|flows| - 1], j) + [FlowLegs(flows[|flows| - 1], j)]
  }

  lemma {:induction false} AllLegsMean(flows: seq<FlowView>, j: Joined)
    requires j.Valid()
    ensures var all := LegsByFlow(flows, j);
            && Flatten(all) == AllLegs(flows, j) && |all| == |flows|
            && forall i :: 0 <= i < |flows| ==> HasFlow(flows[i], j, all[i])
  {
    hide IsFlow, FlowLegs;
    if flows != [] {
      AllLegsMean(flows[..|flows| - 1], j);
      FlattenSnoc(LegsByFlow(flows[..|flows| - 1], j), FlowLegs(flows[|flows| - 1], j));
      var ids := FlowLegsMean(flows[|flows| - 1], j);
    }
  }
}
