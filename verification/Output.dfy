/** Flow ids on the exported records (5gcap/fivegcap/output.py:189-195, 267-277). */
module Output {
  import opened Common
  import opened Sbi
  import opened Correlate
  import Pfcp

  /** The last request on the stream, refused or not: what req_idx maps the key to. */
  ghost function LastRequest(msgs: seq<SbiMsg>, key: StreamKey): (r: Option<nat>)
    ensures r.Some? ==> r.value < |msgs| && msgs[r.value].direction == Request && OnStream(msgs[r.value], key)
  {
    if msgs == [] then None
    else
      var m := msgs[|msgs| - 1];
      if m.direction == Request && OnStream(m, key) then Some(|msgs| - 1) else LastRequest(msgs[..|msgs| - 1], key)
  }

  ghost function SbiProcedureFlow(msgs: seq<SbiMsg>, flowOf: seq<Option<nat>>, key: StreamKey): Option<nat>
    requires |flowOf| == |msgs|
  {
    match LastRequest(msgs, key)
    case None => None
    case Some(i) => flowOf[i]
  }

  method SbiFlowIds(msgs: seq<SbiMsg>, procedures: seq<SbiProcedure>, flowOf: seq<Option<nat>>)
    returns (ids: seq<Option<nat>>)
    requires |flowOf| == |msgs|
    ensures |ids| == |procedures|
    ensures forall a :: 0 <= a < |procedures| ==>
              ids[a] == SbiProcedureFlow(msgs, flowOf, (procedures[a].conn, procedures[a].streamId))
  {
    var reqIdx: map<StreamKey, nat> := map[];
    for i := 0 to |msgs|
      invariant forall key :: LastRequest(msgs[..i], key) == if key in reqIdx then Some(reqIdx[key]) else None
    {
      var m := msgs[i];
      TakeSnoc(msgs, i);
      if m.direction == Request && m.conn.Some? {
        reqIdx := reqIdx[(m.conn.value, m.streamId) := i];
      }
    }
    assert msgs[..|msgs|] == msgs;
    ids := [];
    for a := 0 to |procedures|
      invariant |ids| == a
      invariant forall b :: 0 <= b < a ==>
                  ids[b] == SbiProcedureFlow(msgs, flowOf, (procedures[b].conn, procedures[b].streamId))
    {
      var key := (procedures[a].conn, procedures[a].streamId);
      assert LastRequest(msgs, key) == if key in reqIdx then Some(reqIdx[key]) else None;
      ids := ids + [if key in reqIdx then flowOf[reqIdx[key]] else None];
    }
  }

  ghost predicate SoleOn(msgs: seq<SbiMsg>, key: StreamKey, d: Direction, i: nat)
  {
    && i < |msgs| && msgs[i].direction == d && OnStream(msgs[i], key)
    && forall j :: 0 <= j < |msgs| && msgs[j].direction == d && OnStream(msgs[j], key) ==> j == i
  }

  lemma {:induction false} SoleIsLast(msgs: seq<SbiMsg>, key: StreamKey, d: Direction, i: nat)
    requires SoleOn(msgs, key, d, i)
    ensures d == Request ==> LastRequest(msgs, key) == Some(i)
    ensures Readable(msgs[i]) ==> LastOn(msgs, d, key) == Some(msgs[i])
  {
    var p := msgs[..|msgs| - 1];
    assert forall j :: 0 <= j < |p| ==> p[j] == msgs[j];
    if i < |p| {
      SoleIsLast(p, key, d, i);
    }
  }

  lemma {:induction false} SoleDecidesStream(msgs: seq<SbiMsg>, unambiguous: map<string, nat>, key: StreamKey, i: nat)
    requires SoleOn(msgs, key, Request, i)
    ensures StreamFlow(msgs, unambiguous, key) == JoinedFlow(msgs[i], unambiguous)
  {
    var p := msgs[..|msgs| - 1];
    assert forall j :: 0 <= j < |p| ==> p[j] == msgs[j];
    if i < |p| {
      SoleDecidesStream(p, unambiguous, key, i);
    } else {
      NoStreamFlow(p, unambiguous, key);
    }
  }

  lemma {:induction false} NoStreamFlow(msgs: seq<SbiMsg>, unambiguous: map<string, nat>, key: StreamKey)
    requires forall j :: 0 <= j < |msgs| && msgs[j].direction == Request ==> !OnStream(msgs[j], key)
    ensures StreamFlow(msgs, unambiguous, key) == None
  {
    if msgs != [] {
      var p := msgs[..|msgs| - 1];
      assert forall j :: 0 <= j < |p| ==> p[j] == msgs[j];
      NoStreamFlow(p, unambiguous, key);
    }
  }

  /** With one request and one response on the stream, the procedure made of them, the request
      and the response all carry the same flow id. */
  lemma AnsweredProcedureSharesFlow(msgs: seq<SbiMsg>, unambiguous: map<string, nat>, flowOf: seq<Option<nat>>,
                                    key: StreamKey, i: nat, j: nat)
    requires SoleOn(msgs, key, Request, i) && SoleOn(msgs, key, Response, j)
    requires Readable(msgs[i]) && Readable(msgs[j])
    requires |flowOf| == |msgs| && forall k :: 0 <= k < |msgs| ==> flowOf[k] == SbiLink(msgs, unambiguous, k)
    ensures IsPaired(msgs, ProcedureOf(msgs[i], Some(msgs[j]), key))
    ensures flowOf[i] == flowOf[j] == SbiProcedureFlow(msgs, flowOf, key)
  {
    SoleIsLast(msgs, key, Request, i);
    SoleIsLast(msgs, key, Response, j);
    SoleDecidesStream(msgs, unambiguous, key, i);
    assert msgs[j].conn == Some(key.0);
  }

  /** An N4 procedure follows its request if that is linked, else its response. */
  method PfcpFlowIds(procedures: seq<Pfcp.N4Procedure>, flowOf: seq<Option<nat>>) returns (ids: seq<Option<nat>>)
    requires forall p :: p in procedures ==>
               p.reqIndex < |flowOf| && (p.rspIndex.Some? ==> p.rspIndex.value < |flowOf|)
    ensures |ids| == |procedures|
    ensures forall a :: 0 <= a < |procedures| ==>
              var p := procedures[a];
              && (ids[a].None? <==> flowOf[p.reqIndex].None? && (p.rspIndex.Some? ==> flowOf[p.rspIndex.value].None?))
              && (flowOf[p.reqIndex].Some? ==> ids[a] == flowOf[p.reqIndex])
              && (flowOf[p.reqIndex].None? && p.rspIndex.Some? ==> ids[a] == flowOf[p.rspIndex.value])
  {
    ids := [];
    for a := 0 to |procedures|
      invariant |ids| == a
      invariant forall b :: 0 <= b < a ==>
                  var p := procedures[b];
                  && p in procedures
                  && ids[b] == if flowOf[p.reqIndex].Some? then flowOf[p.reqIndex]
                               else if p.rspIndex.Some? then flowOf[p.rspIndex.value] else None
    {
      var p := procedures[a];
      var reqFlow := flowOf[p.reqIndex];
      var rspFlow := if p.rspIndex.Some? then flowOf[p.rspIndex.value] else None;
      ids := ids + [if reqFlow.Some? then reqFlow else rspFlow];
    }
  }
}
