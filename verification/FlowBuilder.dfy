/** build_flows as written: one pass, with dictionaries of flows, open NAS
    procedures and NGAP starts, updating Flow objects in place. */
module FlowBuilder {
  import opened Common
  import opened Messages
  import opened FlowProcedures
  import opened Flows

  type ProcKey = (nat, Kind)

  function Get<K, V>(m: map<K, V>, k: K): Option<V> {
    if k in m then Some(m[k]) else None
  }

  function GetList<K, V>(m: map<K, seq<V>>, k: K): seq<V> {
    if k in m then m[k] else []
  }

  predicate Stored(procs: seq<Procedure>, k: Kind) {
    exists p :: p in procs && p.kind == k
  }

  // ----- What one message does to the dictionaries, as values -----

  function NewProcedure(k: Kind, ts: real, message: Label): Procedure {
    Procedure(k, ts, message, None, None, Open)
  }

  function Close(p: Procedure, ts: real, message: Label, outcome: Outcome): Procedure {
    p.(endTs := Some(ts), endMsg := Some(message), outcome := outcome)
  }

  ghost function Released(starts: map<ProcKey, seq<Procedure>>, id: nat, ng: NgapMsg): map<ProcKey, seq<Procedure>> {
    if IsRelease(ng.name) then starts - {(id, Registration), (id, PduSessionEst)} else starts
  }

  ghost function NasStepped(procs: seq<Procedure>, open: map<ProcKey, Procedure>, id: nat, e: Entry)
    : (seq<Procedure>, map<ProcKey, Procedure>)
  {
    match NameOf(e.1)
    case None => (procs, open)
    case Some(name) =>
      if NasStart(name).Some? then
        var k := NasStart(name).value;
        (procs, open[(id, k) := NewProcedure(k, e.0.ts, Nas(name))])
      else if NasEnd(name).Some? && (id, NasEnd(name).value.0) in open then
        var (k, outcome) := NasEnd(name).value;
        (procs + [Close(open[(id, k)], e.0.ts, Nas(name), outcome)], open - {(id, k)})
      else (procs, open)
  }

  ghost function Completed(procs: seq<Procedure>, starts: map<ProcKey, seq<Procedure>>, id: nat, k: Kind,
                     end: NgapName, outcome: Outcome, ts: real)
    : (seq<Procedure>, map<ProcKey, seq<Procedure>>)
  {
    var pending := GetList(starts, (id, k));
    if Stored(procs, k) then (procs, starts - {(id, k)})
    else if pending == [] then (procs, starts)
    else (procs + [Close(pending[0], ts, Ngap(end), outcome)], starts[(id, k) := pending[1..]])
  }

  ghost function NgapStepped(procs: seq<Procedure>, starts: map<ProcKey, seq<Procedure>>, id: nat, ng: NgapMsg)
    : (seq<Procedure>, map<ProcKey, seq<Procedure>>)
  {
    if NgapStart(ng.name).Some? then
      var k := NgapStart(ng.name).value;
      (procs, starts[(id, k) := GetList(starts, (id, k)) + [NewProcedure(k, ng.ts, Ngap(ng.name))]])
    else if NgapEnd(ng.name).Some? then
      var (k, outcome) := NgapEnd(ng.name).value;
      Completed(procs, starts, id, k, ng.name, outcome, ng.ts)
    else (procs, starts)
  }

  // ----- What the dictionaries mean -----

  ghost function OpenProcedure(tr: seq<Entry>, k: Kind): Option<Procedure> {
    match OpenNas(tr, k)
    case None => None
    case Some(i) => Some(NewProcedure(k, tr[i].0.ts, LabelOf(tr[i], false)))
  }

  ghost function Opened(tr: seq<Entry>, k: Kind, starts: seq<nat>): seq<Procedure>
    requires forall i :: i in starts ==> i < |tr|
  {
    assert forall i :: 0 <= i < |starts| ==> starts[i] in starts;
    seq(|starts|, i requires 0 <= i < |starts| =>
      NewProcedure(k, tr[starts[i]].0.ts, Ngap(tr[starts[i]].0.name)))
  }

  ghost function StartProcedures(tr: seq<Entry>, k: Kind): seq<Procedure> {
    Opened(tr, k, Starts(tr, k))
  }

  ghost predicate OpenBook(id: nat, tr: seq<Entry>, open: map<ProcKey, Procedure>) {
    forall k :: Get(open, (id, k)) == OpenProcedure(tr, k)
  }

  /** Once a procedure of the kind is stored, the starts of the kind no longer matter. */
  ghost predicate StartsBook(id: nat, tr: seq<Entry>, procs: seq<Procedure>, starts: map<ProcKey, seq<Procedure>>) {
    forall k :: Stored(procs, k) || GetList(starts, (id, k)) == StartProcedures(tr, k)
  }

  /** The dictionary entries of flow id, for a flow that has seen tr and stored procs. */
  ghost predicate Book(id: nat, tr: seq<Entry>, procs: seq<Procedure>, open: map<ProcKey, Procedure>,
                       starts: map<ProcKey, seq<Procedure>>)
  {
    procs == Procedures(tr) && OpenBook(id, tr, open) && StartsBook(id, tr, procs, starts)
  }

  lemma OpenProcedureAppend(tr: seq<Entry>, e: Entry, k: Kind)
    ensures OpenProcedure(tr + [e], k) ==
            if StartsNas(e, k) then Some(NewProcedure(k, e.0.ts, LabelOf(e, false)))
            else if EndsNas(e, k) then None else OpenProcedure(tr, k)
  {
    ClosingsAppend(tr, e);
  }

  lemma OpenedLonger(tr: seq<Entry>, e: Entry, k: Kind, starts: seq<nat>)
    requires forall i :: i in starts ==> i < |tr|
    ensures Opened(tr + [e], k, starts) == Opened(tr, k, starts)
    ensures Opened(tr + [e], k, starts + [|tr|]) == Opened(tr, k, starts) + [NewProcedure(k, e.0.ts, Ngap(e.0.name))]
  {
    assert forall i :: 0 <= i < |starts| ==> starts[i] in starts;
  }

  lemma StartProceduresAppend(tr: seq<Entry>, e: Entry, k: Kind)
    ensures StartProcedures(tr + [e], k) ==
            if Releases(e) then []
            else if StartsNgap(e, k) then StartProcedures(tr, k) + [NewProcedure(k, e.0.ts, Ngap(e.0.name))]
            else StartProcedures(tr, k)
  {
    ClosingsAppend(tr, e);
    OpenedLonger(tr, e, k, Starts(tr, k));
    hide Starts, Closings;
  }

  lemma RecordsLonger(tr: seq<Entry>, e: Entry, cs: seq<Closing>)
    requires forall c :: c in cs ==> JoinsIn(c, tr)
    ensures forall c :: c in cs ==> JoinsIn(c, tr + [e])
    ensures Records(tr + [e], cs) == Records(tr, cs)
  {
  }

  lemma RecordsConcat(tr: seq<Entry>, cs: seq<Closing>, ds: seq<Closing>)
    requires forall c :: c in cs + ds ==> JoinsIn(c, tr)
    ensures (forall c :: c in cs ==> JoinsIn(c, tr)) && forall c :: c in ds ==> JoinsIn(c, tr)
    ensures Records(tr, cs + ds) == Records(tr, cs) + Records(tr, ds)
  {
    assert forall c :: c in cs || c in ds ==> c in cs + ds;
  }

  /** The procedures stored at one message: at most a NAS one and then at most a fallback. */
  lemma ProceduresAppend(tr: seq<Entry>, e: Entry)
    ensures var nas := NasClosing(tr, e);
            var fallback := FallbackClosing(tr, e, Closings(tr) + nas);
            && (forall c :: c in nas ==> JoinsIn(c, tr + [e])) && (forall c :: c in fallback ==> JoinsIn(c, tr + [e]))
            && Procedures(tr + [e]) == Procedures(tr) + Records(tr + [e], nas) + Records(tr + [e], fallback)
  {
    ClosingsAreWellOrdered(tr);
    ClosingsAreWellOrdered(tr + [e]);
    ClosingsAppend(tr, e);
    hide Closings, NasClosing, FallbackClosing;
    var nas := NasClosing(tr, e);
    var fallback := FallbackClosing(tr, e, Closings(tr) + nas);
    RecordsConcat(tr + [e], Closings(tr) + nas, fallback);
    RecordsConcat(tr + [e], Closings(tr), nas);
    RecordsLonger(tr, e, Closings(tr));
  }

  lemma KindsStored(tr: seq<Entry>, cs: seq<Closing>, k: Kind)
    requires forall c :: c in cs ==> JoinsIn(c, tr)
    ensures HasKind(cs, k) <==> Stored(Records(tr, cs), k)
  {
    var ps := Records(tr, cs);
    if HasKind(cs, k) {
      var c :| c in cs && c.kind == k;
      var i :| 0 <= i < |cs| && cs[i] == c;
      assert ps[i] in ps;
    }
  }

  // ----- One message, seen from one flow -----

  lemma NasRecords(tr: seq<Entry>, e: Entry)
    ensures forall c :: c in NasClosing(tr, e) ==> JoinsIn(c, tr + [e])
    ensures Records(tr + [e], NasClosing(tr, e)) ==
            match NameOf(e.1)
            case None => []
            case Some(name) =>
              if NasEnd(name).Some? && OpenProcedure(tr, NasEnd(name).value.0).Some?
              then [Close(OpenProcedure(tr, NasEnd(name).value.0).value, e.0.ts, Nas(name), NasEnd(name).value.1)]
              else []
  {
    NewClosings(tr, e, []);
    var n := NameOf(e.1);
    if n.Some? && NasEnd(n.value).Some? && OpenNas(tr, NasEnd(n.value).value.0).Some? {
      var k := NasEnd(n.value).value.0;
      var i := OpenNas(tr, k).value;
      assert NasClosing(tr, e) == [Closing(k, i, |tr|, false)];
      assert (tr + [e])[i] == tr[i];
    } else {
      assert NasClosing(tr, e) == [];
    }
  }

  lemma NasOpen(id: nat, tr: seq<Entry>, e: Entry, procs: seq<Procedure>, open: map<ProcKey, Procedure>, k: Kind)
    requires Get(open, (id, k)) == OpenProcedure(tr, k)
    ensures Get(NasStepped(procs, open, id, e).1, (id, k)) == OpenProcedure(tr + [e], k)
    ensures forall other: nat :: other != id ==>
              Get(NasStepped(procs, open, id, e).1, (other, k)) == Get(open, (other, k))
  {
    OpenProcedureAppend(tr, e, k);
    hide OpenProcedure;
  }

  /** The NAS pairer's step. */
  lemma NasStep(id: nat, tr: seq<Entry>, e: Entry, procs: seq<Procedure>, open: map<ProcKey, Procedure>)
    requires OpenBook(id, tr, open)
    ensures forall c :: c in NasClosing(tr, e) ==> JoinsIn(c, tr + [e])
    ensures NasStepped(procs, open, id, e).0 == procs + Records(tr + [e], NasClosing(tr, e))
    ensures OpenBook(id, tr + [e], NasStepped(procs, open, id, e).1)
    ensures forall other: nat, k :: other != id ==>
              Get(NasStepped(procs, open, id, e).1, (other, k)) == Get(open, (other, k))
  {
    NasRecords(tr, e);
    assert forall k :: Get(open, (id, k)) == OpenProcedure(tr, k);
    NasRecordsStep(id, tr, e, procs, open);
    forall k
      ensures Get(NasStepped(procs, open, id, e).1, (id, k)) == OpenProcedure(tr + [e], k)
      ensures forall other: nat :: other != id ==>
                Get(NasStepped(procs, open, id, e).1, (other, k)) == Get(open, (other, k))
    {
      NasOpen(id, tr, e, procs, open, k);
    }
    hide OpenProcedure, NasClosing, NasStepped, Records, JoinsIn;
  }

  lemma NasRecordsStep(id: nat, tr: seq<Entry>, e: Entry, procs: seq<Procedure>, open: map<ProcKey, Procedure>)
    requires forall k :: Get(open, (id, k)) == OpenProcedure(tr, k)
    ensures forall c :: c in NasClosing(tr, e) ==> JoinsIn(c, tr + [e])
    ensures NasStepped(procs, open, id, e).0 == procs + Records(tr + [e], NasClosing(tr, e))
  {
    NasRecords(tr, e);
    var n := NameOf(e.1);
    if n.Some? && NasEnd(n.value).Some? {
      var k := NasEnd(n.value).value.0;
      assert Get(open, (id, k)) == OpenProcedure(tr, k);
    }
    hide OpenProcedure, NasClosing, Records, JoinsIn;
  }

  lemma FallbackRecords(tr: seq<Entry>, e: Entry, closed: seq<Closing>)
    ensures forall c :: c in FallbackClosing(tr, e, closed) ==> JoinsIn(c, tr + [e])
    ensures Records(tr + [e], FallbackClosing(tr, e, closed)) ==
            match NgapEnd(e.0.name)
            case None => []
            case Some((k, outcome)) =>
              if HasKind(closed, k) || StartProcedures(tr, k) == [] then []
              else [Close(StartProcedures(tr, k)[0], e.0.ts, Ngap(e.0.name), outcome)]
  {
    NewClosings(tr, e, closed);
    var end := NgapEnd(e.0.name);
    if end.Some? && !HasKind(closed, end.value.0) && Starts(tr, end.value.0) != [] {
      var s := Starts(tr, end.value.0);
      assert s[0] in s;
      assert FallbackClosing(tr, e, closed) == [Closing(end.value.0, s[0], |tr|, true)];
      assert (tr + [e])[s[0]] == tr[s[0]];
    } else {
      assert FallbackClosing(tr, e, closed) == [];
    }
  }

  lemma CompletedStarts(procs: seq<Procedure>, starts: map<ProcKey, seq<Procedure>>, id: nat, end: Kind,
                        name: NgapName, outcome: Outcome, ts: real, k: Kind, want: seq<Procedure>)
    requires Stored(procs, k) || GetList(starts, (id, k)) == want
    requires forall p :: p in want ==> p.kind == k
    ensures var r := Completed(procs, starts, id, end, name, outcome, ts);
            && (Stored(r.0, k) || GetList(r.1, (id, k)) == want)
            && forall other: nat :: other != id ==> GetList(r.1, (other, k)) == GetList(starts, (other, k))
  {
    var r := Completed(procs, starts, id, end, name, outcome, ts);
    assert forall p :: p in procs ==> p in r.0;
    if |r.0| > |procs| {
      assert r.0[|procs|] in r.0;
    }
  }

  lemma NgapStarts(id: nat, e: Entry, procs: seq<Procedure>, starts: map<ProcKey, seq<Procedure>>, k: Kind,
                   want: seq<Procedure>)
    requires Stored(procs, k) || GetList(starts, (id, k)) == want
    requires forall p :: p in want ==> p.kind == k
    ensures var r := NgapStepped(procs, Released(starts, id, e.0), id, e.0);
            && (Stored(r.0, k) || GetList(r.1, (id, k)) ==
                 if Releases(e) then []
                 else if StartsNgap(e, k) then want + [NewProcedure(k, e.0.ts, Ngap(e.0.name))] else want)
            && forall other: nat :: other != id ==> GetList(r.1, (other, k)) == GetList(starts, (other, k))
  {
    if NgapEnd(e.0.name).Some? {
      var (end, outcome) := NgapEnd(e.0.name).value;
      CompletedStarts(procs, starts, id, end, e.0.name, outcome, e.0.ts, k, want);
    }
    hide Stored, Completed;
  }

  lemma NgapRecords(id: nat, tr: seq<Entry>, e: Entry, closed: seq<Closing>, procs: seq<Procedure>,
                    starts: map<ProcKey, seq<Procedure>>)
    requires (forall c :: c in closed ==> JoinsIn(c, tr + [e])) && procs == Records(tr + [e], closed)
    requires StartsBook(id, tr, procs, starts)
    ensures forall c :: c in FallbackClosing(tr, e, closed) ==> JoinsIn(c, tr + [e])
    ensures NgapStepped(procs, Released(starts, id, e.0), id, e.0).0
            == procs + Records(tr + [e], FallbackClosing(tr, e, closed))
  {
    FallbackRecords(tr, e, closed);
    if NgapEnd(e.0.name).Some? {
      var k := NgapEnd(e.0.name).value.0;
      KindsStored(tr + [e], closed, k);
      assert Stored(procs, k) || GetList(starts, (id, k)) == StartProcedures(tr, k);
    }
    hide StartProcedures, Stored, HasKind, FallbackClosing, StartsBook, JoinsIn, Records;
  }

  /** The NGAP pairer's step; closed are the pairs stored so far, this message's NAS pair included. */
  lemma NgapStep(id: nat, tr: seq<Entry>, e: Entry, procs: seq<Procedure>, starts: map<ProcKey, seq<Procedure>>)
    requires StartsBook(id, tr, procs, starts)
    ensures var r := NgapStepped(procs, Released(starts, id, e.0), id, e.0);
            && StartsBook(id, tr + [e], r.0, r.1)
            && forall other: nat, k :: other != id ==> GetList(r.1, (other, k)) == GetList(starts, (other, k))
  {
    forall k
      ensures var r := NgapStepped(procs, Released(starts, id, e.0), id, e.0);
              && (Stored(r.0, k) || GetList(r.1, (id, k)) == StartProcedures(tr + [e], k))
              && forall other: nat :: other != id ==> GetList(r.1, (other, k)) == GetList(starts, (other, k))
    {
      assert Stored(procs, k) || GetList(starts, (id, k)) == StartProcedures(tr, k);
      assert forall p :: p in StartProcedures(tr, k) ==> p.kind == k;
      StartProceduresAppend(tr, e, k);
      NgapStarts(id, e, procs, starts, k, StartProcedures(tr, k));
    }
    hide StartProcedures, Stored, NgapStepped, Released;
  }

  /** One message keeps the dictionaries meaningful, for its own flow and for the others. */
  lemma BookStep(id: nat, tr: seq<Entry>, e: Entry, procs: seq<Procedure>, open: map<ProcKey, Procedure>,
                 starts: map<ProcKey, seq<Procedure>>)
    requires Book(id, tr, procs, open, starts)
    ensures var n := NasStepped(procs, open, id, e);
            var r := NgapStepped(n.0, Released(starts, id, e.0), id, e.0);
            && Book(id, tr + [e], r.0, n.1, r.1) && r.0 == Procedures(tr + [e])
            && SameForOthers(id, open, starts, n.1, r.1)
  {
    var n := NasStepped(procs, open, id, e);
    NasStep(id, tr, e, procs, open);
    StartsAfterNas(id, tr, procs, Records(tr + [e], NasClosing(tr, e)), starts);
    NgapStep(id, tr, e, n.0, starts);
    ProceduresStep(id, tr, e, n.0, starts);
    hide OpenBook, StartsBook, NasStepped, NgapStepped, Released, NasClosing, JoinsIn, Records, Procedures;
  }

  lemma StartsAfterNas(id: nat, tr: seq<Entry>, procs: seq<Procedure>, more: seq<Procedure>,
                       starts: map<ProcKey, seq<Procedure>>)
    requires StartsBook(id, tr, procs, starts)
    ensures StartsBook(id, tr, procs + more, starts)
  {
    assert forall p :: p in procs ==> p in procs + more;
  }

  lemma ProceduresStep(id: nat, tr: seq<Entry>, e: Entry, procs: seq<Procedure>, starts: map<ProcKey, seq<Procedure>>)
    requires forall c :: c in NasClosing(tr, e) ==> JoinsIn(c, tr + [e])
    requires procs == Procedures(tr) + Records(tr + [e], NasClosing(tr, e))
    requires StartsBook(id, tr, procs, starts)
    ensures NgapStepped(procs, Released(starts, id, e.0), id, e.0).0 == Procedures(tr + [e])
  {
    ProceduresAppend(tr, e);
    ClosingsAreWellOrdered(tr);
    RecordsLonger(tr, e, Closings(tr));
    assert forall c :: c in Closings(tr) + NasClosing(tr, e) ==> c in Closings(tr) || c in NasClosing(tr, e);
    RecordsConcat(tr + [e], Closings(tr), NasClosing(tr, e));
    NgapRecords(id, tr, e, Closings(tr) + NasClosing(tr, e), procs, starts);
    hide StartsBook, NgapStepped, Released, Closings, NasClosing, FallbackClosing, JoinsIn, Records;
  }

  ghost predicate SameForOthers(id: nat, open: map<ProcKey, Procedure>, starts: map<ProcKey, seq<Procedure>>,
                                open': map<ProcKey, Procedure>, starts': map<ProcKey, seq<Procedure>>)
  {
    forall other: nat, k: Kind {:trigger Get(open', (other, k))} {:trigger GetList(starts', (other, k))} ::
      other != id ==>
        Get(open', (other, k)) == Get(open, (other, k)) && GetList(starts', (other, k)) == GetList(starts, (other, k))
  }

  /** No dictionary has an entry for a flow numbered n or higher. */
  ghost predicate NoneFrom(n: nat, open: map<ProcKey, Procedure>, starts: map<ProcKey, seq<Procedure>>) {
    && (forall id: nat, k :: id >= n ==> Get(open, (id, k)) == None)
    && (forall id: nat, k :: id >= n ==> GetList(starts, (id, k)) == [])
  }

  // ----- The objects -----

  class Flow {
    const flowId: nat
    const assoc: (int, int)
    const ranUeId: Option<int>
    const partial: bool
    var amfUeId: Option<int>
    var messages: seq<Entry>
    var procedures: seq<Procedure>
    var ciphAlgo: Option<int>

    constructor (flowId: nat, msg: NgapMsg)
      ensures this.flowId == flowId && HeadedBy(msg) && amfUeId == msg.amfUeId
      ensures messages == [] && procedures == [] && ciphAlgo == None
    {
      this.flowId := flowId;
      assoc := SortedAssoc(msg.assoc);
      ranUeId := msg.ranUeId;
      amfUeId := msg.amfUeId;
      partial := msg.name != InitialUEMessage;
      messages := [];
      procedures := [];
      ciphAlgo := None;
    }

    ghost predicate HeadedBy(first: NgapMsg) {
      assoc == SortedAssoc(first.assoc) && ranUeId == first.ranUeId && partial == (first.name != InitialUEMessage)
    }

    ghost function View(): FlowView
      reads this
    {
      FlowView(flowId, assoc, ranUeId, amfUeId, partial, messages, procedures, ciphAlgo)
    }

    /** The flow has taken in ms, and first is its UE's first message. */
    ghost predicate Holds(decode: Decoder, first: NgapMsg, ms: seq<NgapMsg>)
      reads this
    {
      && HeadedBy(first)
      && messages == Decoded(decode, ms) && procedures == Procedures(messages) && ciphAlgo == Cipher(messages)
      && amfUeId == if ms == [] then first.amfUeId else FirstAmf(ms)
    }
  }

  /** The flows other than number x hold what they should, given these dictionaries. */
  ghost predicate Others(decode: Decoder, order: seq<Flow>, flows: map<UeKey, Flow>, all: seq<NgapMsg>,
                         seen: seq<NgapMsg>, x: nat, open: map<ProcKey, Procedure>,
                         starts: map<ProcKey, seq<Procedure>>)
    requires |order| == |Keys(all)|
    reads set i | 0 <= i < |order| && i != x :: order[i]
  {
    forall i {:trigger order[i]} :: 0 <= i < |order| && i != x ==>
      var k := Keys(all)[i];
      && order[i].flowId == i + 1
      && Select(all, k) != [] && order[i].Holds(decode, Select(all, k)[0], Select(seen, k))
      && Book(i + 1, order[i].messages, order[i].procedures, open, starts)
      && k in flows && flows[k] == order[i]
  }

  class Builder {
    const decode: Decoder
    var flows: map<UeKey, Flow>
    var order: seq<Flow>
    var unassociated: seq<NgapMsg>
    var nextId: nat
    var openProcs: map<ProcKey, Procedure>
    var ngapStarts: map<ProcKey, seq<Procedure>>

    constructor (decode: Decoder)
      ensures this.decode == decode && order == [] && Valid([], [])
    {
      this.decode := decode;
      flows := map[];
      order := [];
      unassociated := [];
      nextId := 1;
      openProcs := map[];
      ngapStarts := map[];
    }

    ghost predicate FlowValid(f: Flow, id: nat, k: UeKey, all: seq<NgapMsg>, seen: seq<NgapMsg>)
      reads this, f
    {
      && f.flowId == id
      && Select(all, k) != [] && f.Holds(decode, Select(all, k)[0], Select(seen, k))
      && Book(id, f.messages, f.procedures, openProcs, ngapStarts)
      && k in flows && flows[k] == f
    }

    /** Flows exist for all the messages in all; the messages in seen have been taken in. */
    ghost predicate Valid(all: seq<NgapMsg>, seen: seq<NgapMsg>)
      reads this, order
    {
      && nextId == |order| + 1 && |order| == |Keys(all)|
      && (forall i {:trigger order[i]} :: 0 <= i < |order| ==> FlowValid(order[i], i + 1, Keys(all)[i], all, seen))
      && (forall k :: k in flows ==> k in Keys(all))
      && unassociated == Unassociated(seen)
      && NoneFrom(nextId, openProcs, ngapStarts)
    }

    method FlowFor(msg: NgapMsg, ghost seen: seq<NgapMsg>) returns (f: Flow, ghost x: nat)
      requires Valid(seen, seen) && IsUe(msg)
      modifies this
      ensures Valid(seen + [msg], seen)
      ensures x < |order| && order[x] == f && Keys(seen + [msg])[x] == KeyOf(msg)
      ensures old(order) <= order && forall j :: |old(order)| <= j < |order| ==> fresh(order[j])
    {
      hide Decoded, Cipher, Procedures, Book, Select, Keys, FirstAmf, Unassociated, KeyOf, IsUe, NoneFrom, Flow.Holds;
      var key := KeyOf(msg);
      if key in flows {
        x := KnownUe(seen, msg);
        return flows[key], x;
      }
      NewUe(seen, msg);
      f := new Flow(nextId, msg);
      FreshFlowHolds(f, msg, seen);
      x := |order|;
      nextId := nextId + 1;
      flows := flows[key := f];
      order := order + [f];
    }

    lemma KnownUe(seen: seq<NgapMsg>, msg: NgapMsg) returns (x: nat)
      requires Valid(seen, seen) && IsUe(msg) && KeyOf(msg) in flows
      ensures Valid(seen + [msg], seen)
      ensures x < |order| && order[x] == flows[KeyOf(msg)] && Keys(seen + [msg])[x] == KeyOf(msg)
    {
      hide Select, Keys, Unassociated, KeyOf, IsUe, NoneFrom, FlowValid;
      KeysAppend(seen, msg);
      x :| 0 <= x < |Keys(seen)| && Keys(seen)[x] == KeyOf(msg);
      forall i | 0 <= i < |order|
        ensures FlowValid(order[i], i + 1, Keys(seen)[i], seen + [msg], seen)
      {
        FlowStays(order[i], i + 1, Keys(seen)[i], seen, msg);
      }
      FlowInDictionary(order[x], x + 1, Keys(seen)[x], seen);
    }

    lemma FlowStays(f: Flow, id: nat, k: UeKey, seen: seq<NgapMsg>, msg: NgapMsg)
      requires FlowValid(f, id, k, seen, seen)
      ensures FlowValid(f, id, k, seen + [msg], seen)
    {
      SelectHeads(seen, msg);
      hide Decoded, Cipher, Procedures, Book, Select, FirstAmf;
    }

    lemma FlowInDictionary(f: Flow, id: nat, k: UeKey, seen: seq<NgapMsg>)
      requires FlowValid(f, id, k, seen, seen)
      ensures k in flows && flows[k] == f
    {
    }

    method NasOf(msg: NgapMsg, f: Flow) returns (nas: Option<NasMsg>)
      modifies f`ciphAlgo
      ensures nas == NasUnder(decode, msg, old(f.ciphAlgo))
      ensures f.ciphAlgo == if old(f.ciphAlgo).None? && nas.Some? then nas.value.ciphAlgo else old(f.ciphAlgo)
    {
      if msg.nasPdu.None? || msg.nasPdu.value == [] {
        return None;
      }
      var decoded := decode(msg.nasPdu.value, f.ciphAlgo);
      if f.ciphAlgo.None? && decoded.ciphAlgo.Some? {
        f.ciphAlgo := decoded.ciphAlgo;
      }
      return Some(decoded);
    }

    method CompleteNgap(f: Flow, kind: Kind, end: NgapName, outcome: Outcome, ts: real)
      modifies this`ngapStarts, f`procedures
      ensures (f.procedures, ngapStarts) ==
              Completed(old(f.procedures), old(ngapStarts), f.flowId, kind, end, outcome, ts)
    {
      var key := (f.flowId, kind);
      if Stored(f.procedures, kind) {
        ngapStarts := ngapStarts - {key};
        return;
      }
      var starts := GetList(ngapStarts, key);
      if starts == [] {
        return;
      }
      var proc := starts[0];
      ngapStarts := ngapStarts[key := starts[1..]];
      f.procedures := f.procedures + [Close(proc, ts, Ngap(end), outcome)];
    }

    /** NAS-level procedures open and close before the NGAP fallback is looked at. */
    method PairNas(f: Flow, ng: NgapMsg, nas: Option<NasMsg>)
      modifies this`openProcs, f`procedures
      ensures (f.procedures, openProcs) == NasStepped(old(f.procedures), old(openProcs), f.flowId, (ng, nas))
    {
      var name := NameOf(nas);
      if name.Some? {
        if NasStart(name.value).Some? {
          var kind := NasStart(name.value).value;
          openProcs := openProcs[(f.flowId, kind) := NewProcedure(kind, ng.ts, Nas(name.value))];
        } else if NasEnd(name.value).Some? {
          var (kind, outcome) := NasEnd(name.value).value;
          var key := (f.flowId, kind);
          if key in openProcs {
            var proc := openProcs[key];
            openProcs := openProcs - {key};
            f.procedures := f.procedures + [Close(proc, ng.ts, Nas(name.value), outcome)];
          }
        }
      }
    }

    method PairNgap(f: Flow, ng: NgapMsg)
      modifies this`ngapStarts, f`procedures
      ensures (f.procedures, ngapStarts) == NgapStepped(old(f.procedures), old(ngapStarts), f.flowId, ng)
    {
      if NgapStart(ng.name).Some? {
        var kind := NgapStart(ng.name).value;
        var key := (f.flowId, kind);
        ngapStarts := ngapStarts[key := GetList(ngapStarts, key) + [NewProcedure(kind, ng.ts, Ngap(ng.name))]];
      } else if NgapEnd(ng.name).Some? {
        var (kind, outcome) := NgapEnd(ng.name).value;
        CompleteNgap(f, kind, ng.name, outcome, ng.ts);
      }
    }

    /** The body of the loop, once the message's flow is known. */
    method Take(f: Flow, ng: NgapMsg) returns (ghost e: Entry)
      modifies this`openProcs, this`ngapStarts, f
      ensures e == (ng, NasUnder(decode, ng, old(f.ciphAlgo))) && f.messages == old(f.messages) + [e]
      ensures f.ciphAlgo == if old(f.ciphAlgo).None? && e.1.Some? then e.1.value.ciphAlgo else old(f.ciphAlgo)
      ensures f.amfUeId == if old(f.amfUeId).None? then ng.amfUeId else old(f.amfUeId)
      ensures var n := NasStepped(old(f.procedures), old(openProcs), f.flowId, e);
              var r := NgapStepped(n.0, Released(old(ngapStarts), f.flowId, ng), f.flowId, ng);
              f.procedures == r.0 && openProcs == n.1 && ngapStarts == r.1
    {
      hide NasStepped, NgapStepped, NasUnder;
      if f.amfUeId.None? && ng.amfUeId.Some? {
        f.amfUeId := ng.amfUeId;
      }
      var nas := NasOf(ng, f);
      e := (ng, nas);
      f.messages := f.messages + [(ng, nas)];
      if IsRelease(ng.name) {
        ngapStarts := ngapStarts - {(f.flowId, Registration), (f.flowId, PduSessionEst)};
      }
      PairNas(f, ng, nas);
      PairNgap(f, ng);
    }

    method LeaveOut(ng: NgapMsg, ghost seen: seq<NgapMsg>)
      requires Valid(seen, seen) && !IsUe(ng)
      modifies this`unassociated
      ensures Valid(seen + [ng], seen + [ng])
    {
      hide Decoded, Cipher, Procedures, Book, Select, Keys, FirstAmf, Unassociated, KeyOf, NoneFrom,
           Others, FlowValid, Valid;
      BeforeTaking(seen, seen, |order|);
      unassociated := unassociated + [ng];
      StillValid(seen, ng);
    }

    method Feed(ng: NgapMsg, ghost seen: seq<NgapMsg>)
      requires Valid(seen, seen)
      modifies this, order
      ensures Valid(seen + [ng], seen + [ng])
      ensures old(order) <= order && forall j :: |old(order)| <= j < |order| ==> fresh(order[j])
    {
      hide Decoded, Cipher, Procedures, Book, Select, Keys, FirstAmf, Unassociated, KeyOf, NoneFrom, SameForOthers,
           NasStepped, NgapStepped, Released, NasUnder, Others, FlowValid, Valid;
      if ng.ranUeId.None? && ng.amfUeId.None? {
        LeaveOut(ng, seen);
        return;
      }
      ghost var all := seen + [ng];
      ghost var x;
      var f;
      f, x := FlowFor(ng, seen);
      BeforeTaking(all, seen, x);
      ghost var tr, procs, open, starts, cipher, amf :=
        f.messages, f.procedures, openProcs, ngapStarts, f.ciphAlgo, f.amfUeId;
      assert f in order && f.flowId == x + 1;
      ghost var e := Take(f, ng);
      BookStep(x + 1, tr, e, procs, open, starts);
      AfterTaking(seen, ng, x, e, tr, cipher, amf, open, starts);
    }

    lemma StillValid(seen: seq<NgapMsg>, ng: NgapMsg)
      requires !IsUe(ng)
      requires nextId == |order| + 1 && |order| == |Keys(seen)|
      requires Others(decode, order, flows, seen, seen, |order|, openProcs, ngapStarts)
      requires forall k :: k in flows ==> k in Keys(seen)
      requires unassociated == Unassociated(seen) + [ng]
      requires NoneFrom(nextId, openProcs, ngapStarts)
      ensures Valid(seen + [ng], seen + [ng])
    {
      hide Decoded, Cipher, Procedures, Book, Select, Keys, FirstAmf, Unassociated, KeyOf, NoneFrom;
      KeysAppend(seen, ng);
    }

    lemma BeforeTaking(all: seq<NgapMsg>, seen: seq<NgapMsg>, x: nat)
      requires Valid(all, seen) && x <= |order|
      ensures nextId == |order| + 1 && |order| == |Keys(all)| && forall k :: k in flows ==> k in Keys(all)
      ensures unassociated == Unassociated(seen) && NoneFrom(nextId, openProcs, ngapStarts)
      ensures Others(decode, order, flows, all, seen, x, openProcs, ngapStarts)
      ensures x < |order| ==> forall i :: 0 <= i < |order| && i != x ==> order[i] != order[x]
      ensures x < |order| ==>
              var f, k := order[x], Keys(all)[x];
              && f.flowId == x + 1 && Select(all, k) != [] && f.Holds(decode, Select(all, k)[0], Select(seen, k))
              && Book(x + 1, f.messages, f.procedures, openProcs, ngapStarts)
              && k in flows && flows[k] == f
    {
      hide Decoded, Cipher, Procedures, Book, Select, Keys, FirstAmf, Unassociated, NoneFrom, Flow.Holds;
      forall i | 0 <= i < |order|
        ensures FlowValid(order[i], i + 1, Keys(all)[i], all, seen)
      {
      }
    }

    lemma AfterTaking(seen: seq<NgapMsg>, ng: NgapMsg, x: nat, e: Entry, tr: seq<Entry>, cipher: Option<int>,
                      amf: Option<int>, open: map<ProcKey, Procedure>, starts: map<ProcKey, seq<Procedure>>)
      requires x < |order| && IsUe(ng)
      requires nextId == |order| + 1 && |order| == |Keys(seen + [ng])| && KeyOf(ng) == Keys(seen + [ng])[x]
      requires forall k :: k in flows ==> k in Keys(seen + [ng])
      requires unassociated == Unassociated(seen)
      requires NoneFrom(nextId, open, starts) && SameForOthers(x + 1, open, starts, openProcs, ngapStarts)
      requires Others(decode, order, flows, seen + [ng], seen, x, open, starts)
      requires var f, all, k := order[x], seen + [ng], KeyOf(ng);
               && f.flowId == x + 1 && k in flows && flows[k] == f
               && Select(all, k) != [] && f.HeadedBy(Select(all, k)[0])
               && tr == Decoded(decode, Select(seen, k)) && cipher == Cipher(tr)
               && amf == (if Select(seen, k) == [] then Select(all, k)[0].amfUeId else FirstAmf(Select(seen, k)))
               && e == (ng, NasUnder(decode, ng, cipher)) && f.messages == tr + [e]
               && f.ciphAlgo == (if cipher.None? && e.1.Some? then e.1.value.ciphAlgo else cipher)
               && f.amfUeId == (if amf.None? then ng.amfUeId else amf)
               && f.procedures == Procedures(f.messages)
               && Book(x + 1, f.messages, f.procedures, openProcs, ngapStarts)
      ensures Valid(seen + [ng], seen + [ng])
    {
      hide Decoded, Cipher, Procedures, Book, Select, Keys, FirstAmf, Unassociated, KeyOf, NoneFrom, SameForOthers,
           NasUnder, Flow.Holds, FlowValid, Others, Flow.HeadedBy;
      var all, k := seen + [ng], KeyOf(ng);
      AfterOwn(seen, ng, x, e, tr, cipher, amf);
      forall i | 0 <= i < |order| && i != x
        ensures FlowValid(order[i], i + 1, Keys(all)[i], all, all)
      {
        AfterOther(seen, ng, x, i, open, starts);
      }
      KeptForOthers(x + 1, nextId, open, starts, openProcs, ngapStarts);
      KeysAppend(seen, ng);
    }

    lemma AfterOwn(seen: seq<NgapMsg>, ng: NgapMsg, x: nat, e: Entry, tr: seq<Entry>, cipher: Option<int>,
                   amf: Option<int>)
      requires x < |order| && IsUe(ng)
      requires var f, all, k := order[x], seen + [ng], KeyOf(ng);
               && f.flowId == x + 1 && k in flows && flows[k] == f
               && Select(all, k) != [] && f.HeadedBy(Select(all, k)[0])
               && tr == Decoded(decode, Select(seen, k)) && cipher == Cipher(tr)
               && amf == (if Select(seen, k) == [] then Select(all, k)[0].amfUeId else FirstAmf(Select(seen, k)))
               && e == (ng, NasUnder(decode, ng, cipher)) && f.messages == tr + [e]
               && f.ciphAlgo == (if cipher.None? && e.1.Some? then e.1.value.ciphAlgo else cipher)
               && f.amfUeId == (if amf.None? then ng.amfUeId else amf)
               && f.procedures == Procedures(f.messages)
               && Book(x + 1, f.messages, f.procedures, openProcs, ngapStarts)
      ensures FlowValid(order[x], x + 1, KeyOf(ng), seen + [ng], seen + [ng])
    {
      hide Decoded, Cipher, Procedures, Book, Select, Keys, FirstAmf, KeyOf, NasUnder;
      KeysAppend(seen, ng);
      SelectHeads(seen, ng);
      DecodedAppend(decode, Select(seen, KeyOf(ng)), ng);
    }

    lemma AfterOther(seen: seq<NgapMsg>, ng: NgapMsg, x: nat, i: nat,
                     open: map<ProcKey, Procedure>, starts: map<ProcKey, seq<Procedure>>)
      requires x < |order| && i < |order| && i != x && IsUe(ng)
      requires |order| == |Keys(seen + [ng])| && KeyOf(ng) == Keys(seen + [ng])[x]
      requires SameForOthers(x + 1, open, starts, openProcs, ngapStarts)
      requires Others(decode, order, flows, seen + [ng], seen, x, open, starts)
      ensures FlowValid(order[i], i + 1, Keys(seen + [ng])[i], seen + [ng], seen + [ng])
    {
      hide Decoded, Cipher, Procedures, Book, Select, Keys, FirstAmf, KeyOf, SameForOthers, Flow.Holds;
      KeysAppend(seen, ng);
      OthersBook(x + 1, i + 1, order[i].messages, order[i].procedures, open, starts, openProcs, ngapStarts);
      assert Keys(seen + [ng])[i] != KeyOf(ng);
    }

    lemma Finished(msgs: seq<NgapMsg>)
      requires Valid(msgs, msgs)
      ensures |order| == |FlowsOf(decode, msgs)| && unassociated == Unassociated(msgs)
      ensures forall i :: 0 <= i < |order| ==> order[i].View() == FlowsOf(decode, msgs)[i]
    {
      hide Decoded, Cipher, Procedures, Book, Select, Keys, FirstAmf, Unassociated, KeyOf, NoneFrom, FlowsOf;
      forall i | 0 <= i < |order|
        ensures order[i].View() == FlowsOf(decode, msgs)[i]
      {
        assert FlowValid(order[i], i + 1, Keys(msgs)[i], msgs, msgs);
      }
    }

    lemma NewUe(seen: seq<NgapMsg>, msg: NgapMsg)
      requires Valid(seen, seen) && IsUe(msg) && KeyOf(msg) !in flows
      ensures Keys(seen + [msg]) == Keys(seen) + [KeyOf(msg)]
      ensures forall i :: 0 <= i < |order| ==> FlowValid(order[i], i + 1, Keys(seen)[i], seen + [msg], seen)
      ensures Select(seen + [msg], KeyOf(msg)) == [msg] && Select(seen, KeyOf(msg)) == []
      ensures NoneFrom(nextId + 1, openProcs, ngapStarts) && Book(nextId, [], [], openProcs, ngapStarts)
      ensures forall k :: k in flows ==> k in Keys(seen) && k != KeyOf(msg)
    {
      KeysAppend(seen, msg);
      SelectHeads(seen, msg);
      EmptyBook(nextId, openProcs, ngapStarts);
      forall i | 0 <= i < |order|
        ensures KeyOf(msg) != Keys(seen)[i]
      {
        assert FlowValid(order[i], i + 1, Keys(seen)[i], seen, seen);
      }
      hide Decoded, Cipher, Procedures, Book, Select, Keys, FirstAmf, Unassociated, KeyOf, IsUe, NoneFrom;
    }

    lemma FreshFlowHolds(f: Flow, msg: NgapMsg, seen: seq<NgapMsg>)
      requires f.HeadedBy(msg) && f.amfUeId == msg.amfUeId
      requires f.messages == [] && f.procedures == [] && f.ciphAlgo == None
      ensures f.Holds(decode, msg, [])
    {
    }
  }

  lemma DecodedAppend(decode: Decoder, ms: seq<NgapMsg>, m: NgapMsg)
    ensures var tr := Decoded(decode, ms);
            var e := (m, NasUnder(decode, m, Cipher(tr)));
            && Decoded(decode, ms + [m]) == tr + [e]
            && Cipher(tr + [e]) == (if Cipher(tr).Some? then Cipher(tr)
                                    else if e.1.Some? then e.1.value.ciphAlgo else None)
            && FirstAmf([]) == None
            && FirstAmf(ms + [m]) == (if FirstAmf(ms).Some? then FirstAmf(ms) else m.amfUeId)
  {
    assert (ms + [m])[..|ms|] == ms;
    var tr := Decoded(decode, ms);
    var e := (m, NasUnder(decode, m, Cipher(tr)));
    assert (tr + [e])[..|tr|] == tr;
  }

  lemma KeptForOthers(id: nat, n: nat, open: map<ProcKey, Procedure>, starts: map<ProcKey, seq<Procedure>>,
                      open': map<ProcKey, Procedure>, starts': map<ProcKey, seq<Procedure>>)
    requires SameForOthers(id, open, starts, open', starts')
    requires id < n && NoneFrom(n, open, starts)
    ensures NoneFrom(n, open', starts')
  {
    hide Get, GetList;
  }

  lemma OthersBook(id: nat, other: nat, tr: seq<Entry>, procs: seq<Procedure>,
                   open: map<ProcKey, Procedure>, starts: map<ProcKey, seq<Procedure>>,
                   open': map<ProcKey, Procedure>, starts': map<ProcKey, seq<Procedure>>)
    requires SameForOthers(id, open, starts, open', starts')
    requires other != id && Book(other, tr, procs, open, starts)
    ensures Book(other, tr, procs, open', starts')
  {
    hide Get, GetList, Procedures, OpenProcedure, StartProcedures;
  }

  lemma EmptyBook(id: nat, open: map<ProcKey, Procedure>, starts: map<ProcKey, seq<Procedure>>)
    requires NoneFrom(id, open, starts)
    ensures NoneFrom(id + 1, open, starts)
    ensures Book(id, [], [], open, starts)
  {
  }

  lemma KeysAppend(seen: seq<NgapMsg>, m: NgapMsg)
    ensures Keys(seen + [m]) == if !IsUe(m) || KeyOf(m) in Keys(seen) then Keys(seen) else Keys(seen) + [KeyOf(m)]
    ensures forall k :: Select(seen + [m], k) ==
                        if IsUe(m) && KeyOf(m) == k then Select(seen, k) + [m] else Select(seen, k)
    ensures Unassociated(seen + [m]) == if IsUe(m) then Unassociated(seen) else Unassociated(seen) + [m]
  {
    assert (seen + [m])[..|seen|] == seen;
  }

  lemma SelectHeads(seen: seq<NgapMsg>, m: NgapMsg)
    ensures forall k :: Select(seen, k) != [] ==>
              Select(seen + [m], k) != [] && Select(seen + [m], k)[0] == Select(seen, k)[0]
    ensures forall k :: Select(seen + [m], k) != [] && Select(seen, k) == [] ==> Select(seen + [m], k)[0] == m
  {
    KeysAppend(seen, m);
  }

  /** The main result: the one pass over the capture groups its messages by UE, and gives each UE a flow that follows
      from its own messages. */
  method BuildFlows(decode: Decoder, msgs: seq<NgapMsg>)
    returns (order: seq<Flow>, unassociated: seq<NgapMsg>,
             ghost views: seq<FlowView>, ghost places: seq<seq<nat>>, ghost left: seq<nat>)
    ensures forall f :: f in order ==> fresh(f)
    ensures |views| == |order| && forall i :: 0 <= i < |order| ==> order[i].View() == views[i]
    ensures Grouped(msgs, views, unassociated, places, left)
    ensures forall f :: f in views ==> Described(decode, f)
    ensures views == FlowsOf(decode, msgs) && unassociated == Unassociated(msgs)
  {
    hide Builder.Valid, FlowsOf, Unassociated, Grouped, Described;
    var builder := new Builder(decode);
    assert msgs[..0] == [];
    for i := 0 to |msgs|
      invariant builder.Valid(msgs[..i], msgs[..i]) && builder.decode == decode && fresh(builder)
      invariant forall j :: 0 <= j < |builder.order| ==> fresh(builder.order[j])
    {
      builder.Feed(msgs[i], msgs[..i]);
      TakeSnoc(msgs, i);
    }
    assert msgs[..|msgs|] == msgs;
    builder.Finished(msgs);
    FlowsAreGrouped(decode, msgs);
    return builder.order, builder.unassociated, FlowsOf(decode, msgs), AllPlaces(msgs), PlacesLeft(msgs);
  }
}
