/** Cross-plane joins by strict key equality (5gcap/fivegcap/correlate.py). */
module Correlate {
  import opened Common
  import opened Messages
  import opened Flows
  import opened Pfcp
  import opened Sbi
  import opened StableSort

  // ----- Who declares which key -----

  ghost function DeclaredSupis(f: FlowView): set<string> {
    set e | e in f.messages && e.1.Some? && Truthy(e.1.value.supi) :: e.1.value.supi.value
  }

  ghost function DeclaredTunnels(f: FlowView): set<Tunnel> {
    TunnelsOf(f.messages)
  }

  ghost predicate Claims<K(!new)>(flows: seq<FlowView>, declared: FlowView -> set<K>, k: K, id: nat) {
    exists f :: f in flows && f.flowId == id && k in declared(f)
  }

  /** The key names flow id and no other flow. */
  ghost predicate Owns<K(!new)>(flows: seq<FlowView>, declared: FlowView -> set<K>, k: K, id: nat) {
    forall other :: Claims(flows, declared, k, other) <==> other == id
  }

  ghost predicate AreClaims<K(!new)>(claims: map<K, set<nat>>, flows: seq<FlowView>, declared: FlowView -> set<K>) {
    && (forall k, id: nat :: Claims(flows, declared, k, id) ==> k in claims)
    && (forall k, id: nat :: k in claims ==> (id in claims[k] <==> Claims(flows, declared, k, id)))
  }

  method FlowSupis(flows: seq<FlowView>) returns (claims: map<string, set<nat>>)
    ensures AreClaims(claims, flows, DeclaredSupis)
  {
    hide AreClaims, Extended, Claims;
    claims := map[];
    NoClaims(flows, DeclaredSupis);
    for i := 0 to |flows|
      invariant AreClaims(claims, flows[..i], DeclaredSupis)
    {
      var f := flows[i];
      ghost var before := claims;
      ghost var got: set<string> := {};
      ExtendedStart(claims, f.flowId);
      for j := 0 to |f.messages|
        invariant got == set e | e in f.messages[..j] && e.1.Some? && Truthy(e.1.value.supi) :: e.1.value.supi.value
        invariant Extended(claims, before, got, f.flowId)
      {
        var nas := f.messages[j].1;
        TakeSnoc(f.messages, j);
        if nas.Some? && Truthy(nas.value.supi) {
          var supi := nas.value.supi.value;
          ExtendedStep(claims, before, got, f.flowId, supi);
          claims := claims[supi := (if supi in claims then claims[supi] else {}) + {f.flowId}];
          got := got + {supi};
        }
      }
      assert f.messages[..|f.messages|] == f.messages;
      ClaimsAppend(claims, before, flows, i, DeclaredSupis);
    }
    assert flows[..|flows|] == flows;
  }

  method FlowTunnels(flows: seq<FlowView>) returns (claims: map<Tunnel, set<nat>>)
    ensures AreClaims(claims, flows, DeclaredTunnels)
  {
    hide AreClaims, Extended, Claims, TunnelsOf;
    claims := map[];
    NoClaims(flows, DeclaredTunnels);
    for i := 0 to |flows|
      invariant AreClaims(claims, flows[..i], DeclaredTunnels)
    {
      var f := flows[i];
      ghost var before := claims;
      ghost var got: set<Tunnel> := {};
      ExtendedStart(claims, f.flowId);
      TunnelsOfSteps(f.messages);
      for j := 0 to |f.messages|
        invariant got == TunnelsOf(f.messages[..j])
        invariant Extended(claims, before, got, f.flowId)
      {
        var fTeids := f.messages[j].0.fTeids;
        ghost var got0 := got;
        for k := 0 to |fTeids|
          invariant got == got0 + set t | t in fTeids[..k]
          invariant Extended(claims, before, got, f.flowId)
        {
          var t := fTeids[k];
          TakeSnoc(fTeids, k);
          ExtendedStep(claims, before, got, f.flowId, t);
          claims := claims[t := (if t in claims then claims[t] else {}) + {f.flowId}];
          got := got + {t};
        }
        assert fTeids[..|fTeids|] == fTeids;
      }
      ClaimsAppend(claims, before, flows, i, DeclaredTunnels);
    }
    assert flows[..|flows|] == flows;
  }

  ghost function TunnelsOf(ms: seq<Entry>): set<Tunnel> {
    set e, t | e in ms && t in e.0.fTeids :: t
  }

  lemma TunnelsOfSteps(ms: seq<Entry>)
    ensures TunnelsOf(ms[..0]) == {} && ms[..|ms|] == ms
    ensures forall j :: 0 <= j < |ms| ==>
              TunnelsOf(ms[..j + 1]) == TunnelsOf(ms[..j]) + set t | t in ms[j].0.fTeids
  {
    forall j | 0 <= j < |ms|
      ensures TunnelsOf(ms[..j + 1]) == TunnelsOf(ms[..j]) + set t | t in ms[j].0.fTeids
    {
      TakeSnoc(ms, j);
      assert forall e :: e in ms[..j + 1] <==> e in ms[..j] || e == ms[j];
    }
  }

  lemma NoClaims<K(!new)>(flows: seq<FlowView>, declared: FlowView -> set<K>)
    ensures AreClaims(map[], flows[..0], declared)
  {
    assert flows[..0] == [];
  }

  lemma ExtendedStart<K(!new)>(claims: map<K, set<nat>>, id: nat)
    ensures Extended(claims, claims, {}, id)
  {
  }

  lemma ExtendedStep<K(!new)>(claims: map<K, set<nat>>, before: map<K, set<nat>>, got: set<K>, id: nat, k: K)
    requires Extended(claims, before, got, id)
    ensures Extended(claims[k := (if k in claims then claims[k] else {}) + {id}], before, got + {k}, id)
  {
  }

  /** claims is before, with flow id added for the keys got so far. */
  ghost predicate Extended<K(!new)>(claims: map<K, set<nat>>, before: map<K, set<nat>>, got: set<K>, id: nat) {
    && (forall k :: k in claims <==> k in before || k in got)
    && (forall k :: k in claims ==>
          claims[k] == (if k in before then before[k] else {}) + if k in got then {id} else {})
  }

  lemma ClaimsAppend<K(!new)>(claims: map<K, set<nat>>, before: map<K, set<nat>>, flows: seq<FlowView>, i: nat,
                              declared: FlowView -> set<K>)
    requires i < |flows| && AreClaims(before, flows[..i], declared)
    requires Extended(claims, before, declared(flows[i]), flows[i].flowId)
    ensures AreClaims(claims, flows[..i + 1], declared)
  {
    var f, s, p := flows[i], flows[..i + 1], flows[..i];
    forall k, id: nat
      ensures Claims(s, declared, k, id) ==> k in claims
      ensures k in claims ==> (id in claims[k] <==> Claims(s, declared, k, id))
    {
      ClaimsSnoc(flows, i, declared, k, id);
      assert Claims(p, declared, k, id) <==> k in before && id in before[k];
    }
  }

  lemma ClaimsSnoc<K(!new)>(flows: seq<FlowView>, i: nat, declared: FlowView -> set<K>, k: K, id: nat)
    requires i < |flows|
    ensures Claims(flows[..i + 1], declared, k, id) <==>
            Claims(flows[..i], declared, k, id) || (id == flows[i].flowId && k in declared(flows[i]))
  {
    TakeSnoc(flows, i);
    var s := flows[..i + 1];
    assert forall f :: f in s <==> f in flows[..i] || f == flows[i];
    if Claims(flows[..i], declared, k, id) {
      var f :| f in flows[..i] && f.flowId == id && k in declared(f);
      assert f in s;
      assert Claims(s, declared, k, id);
    } else if id == flows[i].flowId && k in declared(flows[i]) {
      assert flows[i] in s;
      assert Claims(s, declared, k, id);
    }
  }

  lemma OnlyIsUnique(s: set<nat>)
    requires |s| == 1
    ensures forall x, y :: x in s && y in s ==> x == y
    ensures exists x :: x in s
  {
    var x :| x in s;
    assert |s - {x}| == 0;
    forall y | y in s
      ensures y == x
    {
      assert y !in s - {x};
    }
  }

  function Only(s: set<nat>): (x: nat)
    requires |s| == 1
    ensures s == {x}
  {
    OnlyIsUnique(s);
    var x :| x in s;
    x
  }

  function Unambiguous<K>(claims: map<K, set<nat>>): map<K, nat> {
    map k | k in claims && |claims[k]| == 1 :: Only(claims[k])
  }

  lemma UnambiguousIffOwned<K(!new)>(claims: map<K, set<nat>>, flows: seq<FlowView>, declared: FlowView -> set<K>,
                                     k: K, id: nat)
    requires AreClaims(claims, flows, declared)
    ensures k in Unambiguous(claims) && Unambiguous(claims)[k] == id <==> Owns(flows, declared, k, id)
  {
    if Owns(flows, declared, k, id) {
      assert Claims(flows, declared, k, id);
      assert claims[k] == {id};
    }
    if k in Unambiguous(claims) && Unambiguous(claims)[k] == id {
      assert claims[k] == {id};
    }
  }

  // ----- The joins -----

  /** The message is a request that joins, and the flow it joins, under these unambiguous keys. */
  predicate Joins(m: SbiMsg, unambiguous: map<string, nat>) {
    m.direction == Request && m.unparsed.None? && m.conn.Some? && m.supi.Some? && m.supi.value in unambiguous
  }

  ghost function JoinedFlow(m: SbiMsg, unambiguous: map<string, nat>): Option<nat> {
    if Joins(m, unambiguous) then Some(unambiguous[m.supi.value]) else None
  }

  /** The flow of the last joined request on the stream. */
  ghost function StreamFlow(msgs: seq<SbiMsg>, unambiguous: map<string, nat>, key: StreamKey): Option<nat> {
    if msgs == [] then None
    else
      var p, m := msgs[..|msgs| - 1], msgs[|msgs| - 1];
      if Joins(m, unambiguous) && OnStream(m, key) then JoinedFlow(m, unambiguous) else StreamFlow(p, unambiguous, key)
  }

  /** A request follows its SUPI; a response follows the request on its stream. */
  ghost function SbiLink(msgs: seq<SbiMsg>, unambiguous: map<string, nat>, i: nat): Option<nat>
    requires i < |msgs|
  {
    var m := msgs[i];
    if m.direction == Request then JoinedFlow(m, unambiguous)
    else if m.conn.Some? then StreamFlow(msgs, unambiguous, (m.conn.value, m.streamId))
    else None
  }

  function OwnersOf(m: PfcpMsg, unambiguous: map<Tunnel, nat>): set<nat> {
    set t | t in m.fTeids && t in unambiguous :: unambiguous[t]
  }

  ghost function N4Link(m: PfcpMsg, unambiguous: map<Tunnel, nat>): Option<nat> {
    if m.unparsed.None? && |OwnersOf(m, unambiguous)| == 1 then Some(Only(OwnersOf(m, unambiguous))) else None
  }

  /** links maps every index, and refs lists, in order, exactly the indices of each flow. */
  ghost predicate Exact(links: map<nat, Option<nat>>, refs: map<nat, seq<nat>>) {
    && (forall id :: id in refs ==> Increasing(refs[id]) && refs[id] != [])
    && forall id, i :: (id in refs && i in refs[id]) <==> (i in links && links[i] == Some(id))
  }

  /** As Exact, before the final sort of the references. */
  ghost predicate Collected(links: map<nat, Option<nat>>, refs: map<nat, seq<nat>>) {
    && (forall id :: id in refs ==> Distinct(refs[id]) && refs[id] != [])
    && forall id, i :: (id in refs && i in refs[id]) <==> (i in links && links[i] == Some(id))
  }

  lemma CollectedStart()
    ensures Collected(map[], map[])
  {
  }

  lemma Collect(links: map<nat, Option<nat>>, refs: map<nat, seq<nat>>, i: nat, id: nat)
    requires Collected(links, refs) && (i in links ==> links[i] == None)
    ensures Collected(links[i := Some(id)], refs[id := (if id in refs then refs[id] else []) + [i]])
  {
    var refs' := refs[id := (if id in refs then refs[id] else []) + [i]];
    var links' := links[i := Some(id)];
    forall id', j
      ensures (id' in refs' && j in refs'[id']) <==> (j in links' && links'[j] == Some(id'))
    {
      assert (id' in refs && j in refs[id']) <==> (j in links && links[j] == Some(id'));
    }
    assert id in refs ==> i !in refs[id];
  }

  lemma CollectNothing(links: map<nat, Option<nat>>, refs: map<nat, seq<nat>>, i: nat)
    requires Collected(links, refs) && i !in links
    ensures Collected(links[i := None], refs)
  {
    forall id, j
      ensures (id in refs && j in refs[id]) <==> (j in links[i := None] && links[i := None][j] == Some(id))
    {
      assert (id in refs && j in refs[id]) <==> (j in links && links[j] == Some(id));
    }
  }

  predicate AtMost(x: nat, y: nat) {
    x <= y
  }

  function SortAll(refs: map<nat, seq<nat>>): map<nat, seq<nat>> {
    map id | id in refs :: Sort(AtMost, refs[id])
  }

  lemma SortRefs(s: seq<nat>)
    requires Distinct(s)
    ensures Increasing(Sort(AtMost, s)) && forall x :: x in Sort(AtMost, s) <==> x in s
    ensures s != [] ==> Sort(AtMost, s) != []
  {
    SortIsStable(AtMost, s);
    SortMembers(AtMost, s);
    SortIsDistinct(AtMost, s);
  }

  class Correlation {
    var sbiFlow: map<nat, Option<nat>>
    var flowSbiRefs: map<nat, seq<nat>>
    var n4Flow: map<nat, Option<nat>>
    var flowN4Refs: map<nat, seq<nat>>

    constructor ()
      ensures sbiFlow == map[] && flowSbiRefs == map[] && n4Flow == map[] && flowN4Refs == map[]
    {
      sbiFlow, flowSbiRefs, n4Flow, flowN4Refs := map[], map[], map[], map[];
    }

    method JoinSbi(msgs: seq<SbiMsg>, claims: map<string, set<nat>>)
      requires sbiFlow == map[] && flowSbiRefs == map[]
      modifies this`sbiFlow, this`flowSbiRefs
      ensures forall i :: i in sbiFlow <==> 0 <= i < |msgs|
      ensures forall i :: 0 <= i < |msgs| ==> sbiFlow[i] == SbiLink(msgs, Unambiguous(claims), i)
      ensures Exact(sbiFlow, flowSbiRefs)
    {
      hide *;
      var unambiguous := Unambiguous(claims);
      var reqFlow := JoinRequests(msgs, unambiguous);
      JoinResponses(msgs, unambiguous, reqFlow);
      SortedRefs(sbiFlow, flowSbiRefs);
      flowSbiRefs := SortAll(flowSbiRefs);
    }

    /** Requests are joined by their SUPI, and each stream keeps the flow of its last joined request. */
    method JoinRequests(msgs: seq<SbiMsg>, unambiguous: map<string, nat>) returns (reqFlow: map<StreamKey, nat>)
      requires sbiFlow == map[] && flowSbiRefs == map[]
      modifies this`sbiFlow, this`flowSbiRefs
      ensures forall j :: j in sbiFlow <==> 0 <= j < |msgs|
      ensures forall j :: 0 <= j < |msgs| ==> sbiFlow[j] == JoinedFlow(msgs[j], unambiguous)
      ensures Collected(sbiFlow, flowSbiRefs) && StreamBook(msgs, unambiguous, reqFlow)
    {
      hide Collected, Joins, StreamBook;
      reqFlow := map[];
      CollectedStart();
      NoStreams(msgs, unambiguous);
      for i := 0 to |msgs|
        invariant forall j :: j in sbiFlow <==> 0 <= j < i
        invariant forall j :: 0 <= j < i ==> sbiFlow[j] == JoinedFlow(msgs[j], unambiguous)
        invariant Collected(sbiFlow, flowSbiRefs)
        invariant StreamBook(msgs[..i], unambiguous, reqFlow)
      {
        var m := msgs[i];
        CollectNothing(sbiFlow, flowSbiRefs, i);
        StreamAppend(msgs, i, unambiguous, reqFlow);
        sbiFlow := sbiFlow[i := None];
        JoinsNeeds(m, unambiguous);
        if Joins(m, unambiguous) {
          var id := unambiguous[m.supi.value];
          Collect(sbiFlow, flowSbiRefs, i, id);
          sbiFlow := sbiFlow[i := Some(id)];
          flowSbiRefs := flowSbiRefs[id := (if id in flowSbiRefs then flowSbiRefs[id] else []) + [i]];
          reqFlow := reqFlow[(m.conn.value, m.streamId) := id];
        }
      }
      assert msgs[..|msgs|] == msgs;
    }

    /** Responses follow their stream. */
    method JoinResponses(msgs: seq<SbiMsg>, unambiguous: map<string, nat>, reqFlow: map<StreamKey, nat>)
      requires forall j :: j in sbiFlow <==> 0 <= j < |msgs|
      requires forall j :: 0 <= j < |msgs| ==> sbiFlow[j] == JoinedFlow(msgs[j], unambiguous)
      requires Collected(sbiFlow, flowSbiRefs) && StreamBook(msgs, unambiguous, reqFlow)
      modifies this`sbiFlow, this`flowSbiRefs
      ensures forall j :: j in sbiFlow <==> 0 <= j < |msgs|
      ensures forall j :: 0 <= j < |msgs| ==> sbiFlow[j] == SbiLink(msgs, unambiguous, j)
      ensures Collected(sbiFlow, flowSbiRefs)
    {
      hide Collected, Joins, StreamBook;
      for i := 0 to |msgs|
        invariant forall j :: j in sbiFlow <==> 0 <= j < |msgs|
        invariant forall j :: 0 <= j < i ==> sbiFlow[j] == SbiLink(msgs, unambiguous, j)
        invariant forall j :: i <= j < |msgs| ==> sbiFlow[j] == JoinedFlow(msgs[j], unambiguous)
        invariant Collected(sbiFlow, flowSbiRefs)
      {
        var m := msgs[i];
        JoinsNeeds(m, unambiguous);
        if m.direction == Response && m.conn.Some? {
          StreamLookup(msgs, unambiguous, reqFlow, (m.conn.value, m.streamId));
          if (m.conn.value, m.streamId) in reqFlow {
            var id := reqFlow[(m.conn.value, m.streamId)];
            Collect(sbiFlow, flowSbiRefs, i, id);
            sbiFlow := sbiFlow[i := Some(id)];
            flowSbiRefs := flowSbiRefs[id := (if id in flowSbiRefs then flowSbiRefs[id] else []) + [i]];
          }
        }
      }
    }

    method JoinN4(msgs: seq<PfcpMsg>, claims: map<Tunnel, set<nat>>)
      requires n4Flow == map[] && flowN4Refs == map[]
      modifies this`n4Flow, this`flowN4Refs
      ensures forall i :: i in n4Flow <==> 0 <= i < |msgs|
      ensures forall i :: 0 <= i < |msgs| ==> n4Flow[i] == N4Link(msgs[i], Unambiguous(claims))
      ensures Exact(n4Flow, flowN4Refs)
    {
      hide Collected, Exact, SortAll, OwnersOf;
      var unambiguous := Unambiguous(claims);
      CollectedStart();
      for i := 0 to |msgs|
        invariant forall j :: j in n4Flow <==> 0 <= j < i
        invariant forall j :: 0 <= j < i ==> n4Flow[j] == N4Link(msgs[j], unambiguous)
        invariant Collected(n4Flow, flowN4Refs)
      {
        var m := msgs[i];
        CollectNothing(n4Flow, flowN4Refs, i);
        n4Flow := n4Flow[i := None];
        if m.unparsed.None? {
          var ids := OwnersOf(m, unambiguous);
          if |ids| == 1 {
            var id := Only(ids);
            Collect(n4Flow, flowN4Refs, i, id);
            n4Flow := n4Flow[i := Some(id)];
            flowN4Refs := flowN4Refs[id := (if id in flowN4Refs then flowN4Refs[id] else []) + [i]];
          }
        }
      }
      SortedRefs(n4Flow, flowN4Refs);
      flowN4Refs := SortAll(flowN4Refs);
    }
  }

  lemma JoinsNeeds(m: SbiMsg, unambiguous: map<string, nat>)
    ensures Joins(m, unambiguous) ==>
              m.direction == Request && m.conn.Some? && m.supi.Some? && m.supi.value in unambiguous
  {
  }

  ghost predicate StreamBook(msgs: seq<SbiMsg>, unambiguous: map<string, nat>, reqFlow: map<StreamKey, nat>) {
    forall key :: StreamFlow(msgs, unambiguous, key) == if key in reqFlow then Some(reqFlow[key]) else None
  }

  lemma NoStreams(msgs: seq<SbiMsg>, unambiguous: map<string, nat>)
    ensures StreamBook(msgs[..0], unambiguous, map[])
  {
  }

  lemma StreamLookup(msgs: seq<SbiMsg>, unambiguous: map<string, nat>, reqFlow: map<StreamKey, nat>, key: StreamKey)
    requires StreamBook(msgs, unambiguous, reqFlow)
    ensures StreamFlow(msgs, unambiguous, key) == if key in reqFlow then Some(reqFlow[key]) else None
  {
  }

  lemma StreamAppend(msgs: seq<SbiMsg>, i: nat, unambiguous: map<string, nat>, reqFlow: map<StreamKey, nat>)
    requires i < |msgs| && StreamBook(msgs[..i], unambiguous, reqFlow)
    ensures var m := msgs[i];
            StreamBook(msgs[..i + 1], unambiguous,
                       if Joins(m, unambiguous)
                       then reqFlow[(m.conn.value, m.streamId) := unambiguous[m.supi.value]] else reqFlow)
  {
    TakeSnoc(msgs, i);
    var m := msgs[i];
    forall key: StreamKey
      ensures StreamFlow(msgs[..i + 1], unambiguous, key) ==
              if Joins(m, unambiguous) && key == (m.conn.value, m.streamId) then Some(unambiguous[m.supi.value])
              else if key in reqFlow then Some(reqFlow[key]) else None
    {
    }
  }

  lemma SortedRefs(links: map<nat, Option<nat>>, refs: map<nat, seq<nat>>)
    requires Collected(links, refs)
    ensures Exact(links, SortAll(refs))
  {
    var sorted := SortAll(refs);
    forall id | id in refs
      ensures Increasing(sorted[id]) && sorted[id] != [] && forall x :: x in sorted[id] <==> x in refs[id]
    {
      SortRefs(refs[id]);
    }
    hide Sort;
  }

  /** Join the planes that were given. */
  method Correlate(flows: seq<FlowView>, sbiMsgs: seq<SbiMsg>, n4Msgs: seq<PfcpMsg>) returns (corr: Correlation)
    ensures fresh(corr)
    ensures forall i :: i in corr.sbiFlow <==> 0 <= i < |sbiMsgs|
    ensures forall i, id: nat :: 0 <= i < |sbiMsgs| ==>
              (corr.sbiFlow[i] == Some(id) <==> LinksSbi(flows, sbiMsgs, i, id))
    ensures forall i :: i in corr.n4Flow <==> 0 <= i < |n4Msgs|
    ensures forall i, id: nat :: 0 <= i < |n4Msgs| ==>
              (corr.n4Flow[i] == Some(id) <==> LinksN4(flows, n4Msgs[i], id))
    ensures Exact(corr.sbiFlow, corr.flowSbiRefs) && Exact(corr.n4Flow, corr.flowN4Refs)
  {
    hide *;
    corr := new Correlation();
    if sbiMsgs != [] {
      var supis := FlowSupis(flows);
      corr.JoinSbi(sbiMsgs, supis);
      forall i, id: nat | 0 <= i < |sbiMsgs|
        ensures SbiLink(sbiMsgs, Unambiguous(supis), i) == Some(id) <==> LinksSbi(flows, sbiMsgs, i, id)
      {
        SbiLinkMeaning(flows, supis, sbiMsgs, i, id);
      }
    } else {
      ExactStart();
    }
    if n4Msgs != [] {
      var tunnels := FlowTunnels(flows);
      corr.JoinN4(n4Msgs, tunnels);
      forall i, id: nat | 0 <= i < |n4Msgs|
        ensures N4Link(n4Msgs[i], Unambiguous(tunnels)) == Some(id) <==> LinksN4(flows, n4Msgs[i], id)
      {
        N4LinkMeaning(flows, tunnels, n4Msgs[i], id);
      }
    } else {
      ExactStart();
    }
  }

  lemma ExactStart()
    ensures Exact(map[], map[])
  {
  }

  // ----- What a link means -----

  /** The request is readable and its SUPI is declared by flow id and by no other. */
  ghost predicate LinksRequest(flows: seq<FlowView>, m: SbiMsg, id: nat) {
    && m.direction == Request && m.unparsed.None? && m.conn.Some?
    && m.supi.Some? && Owns(flows, DeclaredSupis, m.supi.value, id)
  }

  /** The last request on the stream that links at all links to flow id. */
  ghost predicate LinksStream(flows: seq<FlowView>, msgs: seq<SbiMsg>, key: StreamKey, id: nat) {
    exists r :: 0 <= r < |msgs| && OnStream(msgs[r], key) && LinksRequest(flows, msgs[r], id)
      && forall r', other :: r < r' < |msgs| && OnStream(msgs[r'], key) ==> !LinksRequest(flows, msgs[r'], other)
  }

  ghost predicate LinksSbi(flows: seq<FlowView>, msgs: seq<SbiMsg>, i: nat, id: nat)
    requires i < |msgs|
  {
    var m := msgs[i];
    if m.direction == Request then LinksRequest(flows, m, id)
    else m.conn.Some? && LinksStream(flows, msgs, (m.conn.value, m.streamId), id)
  }

  /** One of the message's tunnels is declared by flow id and by no other. */
  ghost predicate Names(flows: seq<FlowView>, m: PfcpMsg, id: nat) {
    exists t :: t in m.fTeids && Owns(flows, DeclaredTunnels, t, id)
  }

  /** The message is readable, and its tunnels name flow id and no other flow. */
  ghost predicate LinksN4(flows: seq<FlowView>, m: PfcpMsg, id: nat) {
    m.unparsed.None? && forall other :: Names(flows, m, other) <==> other == id
  }

  lemma RequestLinkMeaning(flows: seq<FlowView>, claims: map<string, set<nat>>, m: SbiMsg, id: nat)
    requires AreClaims(claims, flows, DeclaredSupis)
    ensures JoinedFlow(m, Unambiguous(claims)) == Some(id) <==> LinksRequest(flows, m, id)
  {
    if m.supi.Some? {
      UnambiguousIffOwned(claims, flows, DeclaredSupis, m.supi.value, id);
    }
    hide Owns, Unambiguous, AreClaims;
  }

  lemma JoinsIffLinks(flows: seq<FlowView>, claims: map<string, set<nat>>, m: SbiMsg)
    requires AreClaims(claims, flows, DeclaredSupis)
    ensures Joins(m, Unambiguous(claims)) <==> exists id :: LinksRequest(flows, m, id)
  {
    forall id: nat
      ensures JoinedFlow(m, Unambiguous(claims)) == Some(id) <==> LinksRequest(flows, m, id)
    {
      RequestLinkMeaning(flows, claims, m, id);
    }
    if Joins(m, Unambiguous(claims)) {
      assert LinksRequest(flows, m, Unambiguous(claims)[m.supi.value]);
    }
    hide LinksRequest, Unambiguous, AreClaims;
  }

  lemma {:induction false} StreamLinkMeaning(flows: seq<FlowView>, claims: map<string, set<nat>>, msgs: seq<SbiMsg>,
                                             key: StreamKey, id: nat)
    requires AreClaims(claims, flows, DeclaredSupis)
    ensures StreamFlow(msgs, Unambiguous(claims), key) == Some(id) <==> LinksStream(flows, msgs, key, id)
  {
    if msgs != [] {
      var p, m := msgs[..|msgs| - 1], msgs[|msgs| - 1];
      StreamLinkMeaning(flows, claims, p, key, id);
      RequestLinkMeaning(flows, claims, m, id);
      JoinsIffLinks(flows, claims, m);
      LinksStreamAppend(flows, p, m, key, id);
      assert msgs == p + [m];
    }
    hide LinksStream, LinksRequest, Unambiguous, AreClaims;
  }

  lemma LinksStreamAppend(flows: seq<FlowView>, p: seq<SbiMsg>, m: SbiMsg, key: StreamKey, id: nat)
    ensures LinksStream(flows, p + [m], key, id) <==>
            if OnStream(m, key) && exists other :: LinksRequest(flows, m, other) then LinksRequest(flows, m, id)
            else LinksStream(flows, p, key, id)
  {
    var msgs := p + [m];
    assert msgs[|p|] == m;
    hide LinksRequest, OnStream;
    if OnStream(m, key) && exists other :: LinksRequest(flows, m, other) {
      if LinksRequest(flows, m, id) {
        assert OnStream(msgs[|p|], key) && LinksRequest(flows, msgs[|p|], id);
      }
    } else {
      if LinksStream(flows, p, key, id) {
        var r :| 0 <= r < |p| && OnStream(p[r], key) && LinksRequest(flows, p[r], id)
          && forall r', other :: r < r' < |p| && OnStream(p[r'], key) ==> !LinksRequest(flows, p[r'], other);
        assert msgs[r] == p[r];
        assert forall r' :: r < r' < |p| ==> msgs[r'] == p[r'];
      }
      if LinksStream(flows, msgs, key, id) {
        var r :| 0 <= r < |msgs| && OnStream(msgs[r], key) && LinksRequest(flows, msgs[r], id)
          && forall r', other :: r < r' < |msgs| && OnStream(msgs[r'], key) ==> !LinksRequest(flows, msgs[r'], other);
        assert msgs[r] == p[r];
        assert forall r' :: r < r' < |p| ==> msgs[r'] == p[r'];
      }
    }
  }

  /** SBI links exist exactly as LinksSbi says. */
  lemma SbiLinkMeaning(flows: seq<FlowView>, claims: map<string, set<nat>>, msgs: seq<SbiMsg>, i: nat, id: nat)
    requires AreClaims(claims, flows, DeclaredSupis) && i < |msgs|
    ensures SbiLink(msgs, Unambiguous(claims), i) == Some(id) <==> LinksSbi(flows, msgs, i, id)
  {
    var m := msgs[i];
    RequestLinkMeaning(flows, claims, m, id);
    if m.conn.Some? {
      StreamLinkMeaning(flows, claims, msgs, (m.conn.value, m.streamId), id);
    }
    hide StreamFlow, LinksStream, LinksRequest, JoinedFlow;
  }

  /** N4 links exist exactly as LinksN4 says: never for an ambiguous tunnel, a message whose
      tunnels name two flows, or a refused message. */
  lemma N4LinkMeaning(flows: seq<FlowView>, claims: map<Tunnel, set<nat>>, m: PfcpMsg, id: nat)
    requires AreClaims(claims, flows, DeclaredTunnels)
    ensures N4Link(m, Unambiguous(claims)) == Some(id) <==> LinksN4(flows, m, id)
  {
    forall other: nat
      ensures other in OwnersOf(m, Unambiguous(claims)) <==> Names(flows, m, other)
    {
      OwnersMeaning(flows, claims, m, other);
    }
    SingleOwner(m, Unambiguous(claims), id);
    hide Names, Unambiguous, AreClaims, OwnersOf, N4Link;
  }

  lemma SingleOwner(m: PfcpMsg, unambiguous: map<Tunnel, nat>, id: nat)
    ensures N4Link(m, unambiguous) == Some(id) <==>
            m.unparsed.None? && id in OwnersOf(m, unambiguous)
            && forall other :: other in OwnersOf(m, unambiguous) ==> other == id
  {
    var ids := OwnersOf(m, unambiguous);
    if id in ids && forall other :: other in ids ==> other == id {
      assert ids == {id};
      assert Only(ids) in ids;
    }
    hide OwnersOf;
  }

  lemma OwnersMeaning(flows: seq<FlowView>, claims: map<Tunnel, set<nat>>, m: PfcpMsg, other: nat)
    requires AreClaims(claims, flows, DeclaredTunnels)
    ensures other in OwnersOf(m, Unambiguous(claims)) <==> Names(flows, m, other)
  {
    forall t: Tunnel
      ensures t in Unambiguous(claims) && Unambiguous(claims)[t] == other <==> Owns(flows, DeclaredTunnels, t, other)
    {
      UnambiguousIffOwned(claims, flows, DeclaredTunnels, t, other);
    }
    hide Owns, Unambiguous, AreClaims;
  }

  /** The order of the flows is irrelevant: only which flow declares what matters. */
  lemma FlowOrderIrrelevant(flows: seq<FlowView>, other: seq<FlowView>, msgs: seq<SbiMsg>, i: nat, m: PfcpMsg, id: nat)
    requires multiset(flows) == multiset(other) && i < |msgs|
    ensures LinksSbi(flows, msgs, i, id) <==> LinksSbi(other, msgs, i, id)
    ensures LinksN4(flows, m, id) <==> LinksN4(other, m, id)
  {
    forall f
      ensures f in flows <==> f in other
    {
      assert f in multiset(flows) <==> f in multiset(other);
    }
    forall k: string, id: nat
      ensures Owns(flows, DeclaredSupis, k, id) <==> Owns(other, DeclaredSupis, k, id)
    {
      assert forall id: nat :: Claims(flows, DeclaredSupis, k, id) <==> Claims(other, DeclaredSupis, k, id);
    }
    forall k: Tunnel, id: nat
      ensures Owns(flows, DeclaredTunnels, k, id) <==> Owns(other, DeclaredTunnels, k, id)
    {
      assert forall id: nat :: Claims(flows, DeclaredTunnels, k, id) <==> Claims(other, DeclaredTunnels, k, id);
    }
    assert forall id :: Names(flows, m, id) <==> Names(other, m, id);
    hide Owns, OnStream;
    assert forall m, id :: LinksRequest(flows, m, id) <==> LinksRequest(other, m, id);
  }

  // ----- Refused messages -----

  /** A refused message never joins, unless it is a response whose stream carries a joined
      request: the second loop does not look at the response's own refusal. */
  lemma RefusedLinksIff(msgs: seq<SbiMsg>, unambiguous: map<string, nat>, i: nat)
    requires i < |msgs| && msgs[i].unparsed.Some?
    ensures SbiLink(msgs, unambiguous, i).Some? <==>
            && msgs[i].direction == Response && msgs[i].conn.Some?
            && exists r :: 0 <= r < |msgs| && Joins(msgs[r], unambiguous)
                 && OnStream(msgs[r], (msgs[i].conn.value, msgs[i].streamId))
  {
    if msgs[i].conn.Some? {
      StreamFlowExists(msgs, unambiguous, (msgs[i].conn.value, msgs[i].streamId));
    }
  }

  lemma {:induction false} StreamFlowExists(msgs: seq<SbiMsg>, unambiguous: map<string, nat>, key: StreamKey)
    ensures StreamFlow(msgs, unambiguous, key).Some? <==>
            exists r :: 0 <= r < |msgs| && Joins(msgs[r], unambiguous) && OnStream(msgs[r], key)
  {
    if msgs != [] {
      var p, m := msgs[..|msgs| - 1], msgs[|msgs| - 1];
      StreamFlowExists(p, unambiguous, key);
      assert forall r :: 0 <= r < |p| ==> msgs[r] == p[r];
      if StreamFlow(p, unambiguous, key).Some? {
        var r :| 0 <= r < |p| && Joins(p[r], unambiguous) && OnStream(p[r], key);
        assert Joins(msgs[r], unambiguous) && OnStream(msgs[r], key);
      }
      if Joins(m, unambiguous) && OnStream(m, key) {
        assert msgs[|p|] == m;
      }
    }
    hide Joins, OnStream;
  }

  /** Such a link exists. */
  lemma RefusedResponseMayLink(req: SbiMsg, rsp: SbiMsg, unambiguous: map<string, nat>)
    requires Joins(req, unambiguous)
    requires rsp.direction == Response && rsp.unparsed.Some? && rsp.conn == req.conn && rsp.streamId == req.streamId
    ensures SbiLink([req, rsp], unambiguous, 1) == JoinedFlow(req, unambiguous)
  {
    var key := (rsp.conn.value, rsp.streamId);
    assert [req, rsp][..1] == [req] && [req][..0] == [];
    assert StreamFlow([req], unambiguous, key) == JoinedFlow(req, unambiguous);
  }
}
